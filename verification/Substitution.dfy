/** `Substitution::singleton(v, s).apply_formula(f)`: replacement of one variable, with the
    code's nesting cut-off, its shadowing branch and its capture-renaming branch. */
module Substitution {
  import opened Wrappers
  import opened Fol

  /** Terms nested deeper than this are returned unchanged by `apply_term_opt`. */
  const MAX_DEPTH: nat := 500

  /** `apply_term` for the single binding `v -> s`; "no change" (`None`) is the term itself. */
  function ApplyTerm(v: VarId, s: Term, t: Term, depth: nat): Term
    decreases if depth > MAX_DEPTH then 0 else MAX_DEPTH + 1 - depth
  {
    if depth > MAX_DEPTH then t else
    match t
    case Var(w) => if w != v then t else if s.Var? then s else ApplyTerm(v, s, s, depth + 1)
    case App(f, args) => App(f, seq(|args|, i requires 0 <= i < |args| => ApplyTerm(v, s, args[i], depth + 1)))
  }

  function ApplyAtom(v: VarId, s: Term, a: Atom): Atom {
    match a
    case Pred(p, args) => Pred(p, seq(|args|, i requires 0 <= i < |args| => ApplyTerm(v, s, args[i], 0)))
    case Eq(l, r) => Eq(ApplyTerm(v, s, l, 0), ApplyTerm(v, s, r, 0))
  }

  function RenameTerm(t: Term, old_: VarId, new_: VarId): Term {
    match t
    case Var(v) => if v == old_ then Var(new_) else t
    case App(f, args) => App(f, seq(|args|, i requires 0 <= i < |args| => RenameTerm(args[i], old_, new_)))
  }

  function RenameAtom(a: Atom, old_: VarId, new_: VarId): Atom {
    match a
    case Pred(p, args) => Pred(p, seq(|args|, i requires 0 <= i < |args| => RenameTerm(args[i], old_, new_)))
    case Eq(l, r) => Eq(RenameTerm(l, old_, new_), RenameTerm(r, old_, new_))
  }

  function RenameVar(f: Formula, old_: VarId, new_: VarId): (r: Formula)
    ensures Size(r) == Size(f)
    decreases f, 0
  {
    match f
    case AtomF(a) => AtomF(RenameAtom(a, old_, new_))
    case Neg(g) => Neg(RenameVar(g, old_, new_))
    case And(fs) => And(RenameVars(fs, old_, new_))
    case Or(fs) => Or(RenameVars(fs, old_, new_))
    case Implies(a, b) => Implies(RenameVar(a, old_, new_), RenameVar(b, old_, new_))
    case Iff(a, b) => Iff(RenameVar(a, old_, new_), RenameVar(b, old_, new_))
    case Forall(v, b) => if v == old_ then f else Forall(v, RenameVar(b, old_, new_))
    case Exists(v, b) => if v == old_ then f else Exists(v, RenameVar(b, old_, new_))
    case True => True
    case False => False
  }

  function RenameVars(fs: seq<Formula>, old_: VarId, new_: VarId): (r: seq<Formula>)
    ensures Sizes(r) == Sizes(fs)
    decreases fs, 1
  {
    if fs == [] then [] else [RenameVar(fs[0], old_, new_)] + RenameVars(fs[1..], old_, new_)
  }

  /** `apply_formula_rec`; the second component is the counter for capture-avoiding renames. */
  function Apply(v: VarId, s: Term, f: Formula, next: VarId): (r: (Formula, VarId))
    ensures Size(r.0) == Size(f) && next <= r.1
    decreases Size(f), 0
  {
    match f
    case AtomF(a) => (AtomF(ApplyAtom(v, s, a)), next)
    case Neg(g) => var r := Apply(v, s, g, next); (Neg(r.0), r.1)
    case And(fs) => var r := ApplyAll(v, s, fs, next); (And(r.0), r.1)
    case Or(fs) => var r := ApplyAll(v, s, fs, next); (Or(r.0), r.1)
    case Implies(a, b) =>
      var x := Apply(v, s, a, next); var y := Apply(v, s, b, x.1); (Implies(x.0, y.0), y.1)
    case Iff(a, b) =>
      var x := Apply(v, s, a, next); var y := Apply(v, s, b, x.1); (Iff(x.0, y.0), y.1)
    case Forall(w, b) =>
      if w == v then (f, next)
      else if w in TermVars(s) then
        var r := Apply(v, s, RenameVar(b, w, next), next + 1); (Forall(next, r.0), r.1)
      else
        var r := Apply(v, s, b, next); (Forall(w, r.0), r.1)
    case Exists(w, b) =>
      if w == v then (f, next)
      else if w in TermVars(s) then
        var r := Apply(v, s, RenameVar(b, w, next), next + 1); (Exists(next, r.0), r.1)
      else
        var r := Apply(v, s, b, next); (Exists(w, r.0), r.1)
    case True => (True, next)
    case False => (False, next)
  }

  function ApplyAll(v: VarId, s: Term, fs: seq<Formula>, next: VarId): (r: (seq<Formula>, VarId))
    ensures |r.0| == |fs| && Sizes(r.0) == Sizes(fs) && next <= r.1
    decreases Sizes(fs), 1
  {
    if fs == [] then ([], next) else
    var x := Apply(v, s, fs[0], next);
    var y := ApplyAll(v, s, fs[1..], x.1);
    ([x.0] + y.0, y.1)
  }

  function TermMaxVar(t: Term): VarId {
    match t
    case Var(v) => v
    case App(_, args) => TermsMaxVar(args)
  }

  function TermsMaxVar(ts: seq<Term>): VarId {
    if ts == [] then 0 else Max(TermMaxVar(ts[0]), TermsMaxVar(ts[1..]))
  }

  /** The largest variable id of `f`, binders included. */
  function MaxVar(f: Formula): VarId {
    match f
    case AtomF(Pred(_, args)) => TermsMaxVar(args)
    case AtomF(Eq(l, r)) => Max(TermMaxVar(l), TermMaxVar(r))
    case Neg(g) => MaxVar(g)
    case And(fs) => MaxVars(fs)
    case Or(fs) => MaxVars(fs)
    case Implies(a, b) => Max(MaxVar(a), MaxVar(b))
    case Iff(a, b) => Max(MaxVar(a), MaxVar(b))
    case Forall(v, b) => Max(v, MaxVar(b))
    case Exists(v, b) => Max(v, MaxVar(b))
    case True => 0
    case False => 0
  }

  function MaxVars(fs: seq<Formula>): VarId {
    if fs == [] then 0 else Max(MaxVar(fs[0]), MaxVars(fs[1..]))
  }

  function ApplySingleton(v: VarId, s: Term, f: Formula): (r: Formula)
    ensures Size(r) == Size(f)
  {
    Apply(v, s, f, Max(Max(v, TermMaxVar(s)), MaxVar(f)) + 1).0
  }

  // ----- the mathematical substitution, and exactly when the code computes it

  function SubstTerm(v: VarId, s: Term, t: Term): Term {
    match t
    case Var(w) => if w == v then s else t
    case App(f, args) => App(f, seq(|args|, i requires 0 <= i < |args| => SubstTerm(v, s, args[i])))
  }

  /** The variables of `t` that lie below the nesting cut-off. */
  function DeepVars(t: Term, depth: nat): set<VarId>
    decreases t
  {
    match t
    case Var(w) => if depth > MAX_DEPTH then {w} else {}
    case App(_, args) => DeepVarsAll(args, depth + 1)
  }

  function DeepVarsAll(ts: seq<Term>, depth: nat): set<VarId>
    decreases ts
  {
    set i, x | 0 <= i < |ts| && x in DeepVars(ts[i], depth) :: x
  }

  /** The free variables of `f` with an occurrence below the nesting cut-off. */
  function DeepVarsOf(f: Formula): set<VarId> {
    match f
    case AtomF(Pred(_, args)) => DeepVarsAll(args, 0)
    case AtomF(Eq(l, r)) => DeepVars(l, 0) + DeepVars(r, 0)
    case Neg(g) => DeepVarsOf(g)
    case And(fs) => set i, x | 0 <= i < |fs| && x in DeepVarsOf(fs[i]) :: x
    case Or(fs) => set i, x | 0 <= i < |fs| && x in DeepVarsOf(fs[i]) :: x
    case Implies(a, b) => DeepVarsOf(a) + DeepVarsOf(b)
    case Iff(a, b) => DeepVarsOf(a) + DeepVarsOf(b)
    case Forall(v, b) => DeepVarsOf(b) - {v}
    case Exists(v, b) => DeepVarsOf(b) - {v}
    case True => {}
    case False => {}
  }

  lemma {:induction false} SubstAbsent(v: VarId, s: Term, t: Term, depth: nat)
    requires v !in TermVars(t)
    ensures SubstTerm(v, s, t) == t && ApplyTerm(v, s, t, depth) == t
    ensures v !in DeepVars(t, depth)
    decreases t
  {
    match t
    case Var(_) =>
    case App(f, args) =>
      forall i | 0 <= i < |args|
        ensures SubstTerm(v, s, args[i]) == args[i] && ApplyTerm(v, s, args[i], depth + 1) == args[i]
        ensures v !in DeepVars(args[i], depth + 1)
      {
        SubstAbsent(v, s, args[i], depth + 1);
      }
      assert SubstTerm(v, s, t).args == args;
      if depth <= MAX_DEPTH { assert ApplyTerm(v, s, t, depth).args == args; }
  }

  lemma {:induction false} SubstRemoves(v: VarId, s: Term, t: Term)
    requires v !in TermVars(s)
    ensures v !in TermVars(SubstTerm(v, s, t))
    decreases t
  {
    match t
    case Var(_) =>
    case App(f, args) =>
      forall i | 0 <= i < |args| ensures v !in TermVars(SubstTerm(v, s, args[i])) { SubstRemoves(v, s, args[i]); }
  }

  lemma {:induction false} DeepIsFree(v: VarId, t: Term, depth: nat)
    ensures v in DeepVars(t, depth) ==> v in TermVars(t)
    ensures depth > MAX_DEPTH ==> (v in DeepVars(t, depth) <==> v in TermVars(t))
    decreases t
  {
    match t
    case Var(_) =>
    case App(_, args) =>
      forall i | 0 <= i < |args|
        ensures v in DeepVars(args[i], depth + 1) ==> v in TermVars(args[i])
        ensures depth + 1 > MAX_DEPTH ==> (v in DeepVars(args[i], depth + 1) <==> v in TermVars(args[i]))
      {
        DeepIsFree(v, args[i], depth + 1);
      }
      assert v in DeepVars(t, depth) <==> v in DeepVarsAll(args, depth + 1);
  }

  /** The prover's substitution is the mathematical one exactly when the variable never
      occurs below the nesting cut-off. */
  lemma {:induction false} ApplyTermExact(v: VarId, s: Term, t: Term, depth: nat)
    requires v !in TermVars(s)
    ensures ApplyTerm(v, s, t, depth) == SubstTerm(v, s, t) <==> v !in DeepVars(t, depth)
    decreases t
  {
    if depth > MAX_DEPTH {
      DeepIsFree(v, t, depth);
      if v in TermVars(t) { SubstRemoves(v, s, t); } else { SubstAbsent(v, s, t, depth); }
    } else {
      match t
      case Var(w) => if w == v && s.App? { SubstAbsent(v, s, s, depth + 1); }
      case App(f, args) =>
        var a, b := ApplyTerm(v, s, t, depth).args, SubstTerm(v, s, t).args;
        forall i | 0 <= i < |args| ensures a[i] == b[i] <==> v !in DeepVars(args[i], depth + 1) {
          ApplyTermExact(v, s, args[i], depth + 1);
        }
        assert v in DeepVars(t, depth) <==> v in DeepVarsAll(args, depth + 1);
        if v !in DeepVars(t, depth) { assert a == b; }
    }
  }

  // ----- capture avoidance

  lemma {:induction false} SubstTermVal<D(!new)>(m: Structure<D>, e: Env<D>, v: VarId, s: Term, t: Term)
    ensures Val(m, e, SubstTerm(v, s, t)) == Val(m, Upd(e, v, Val(m, e, s)), t)
    decreases t
  {
    match t
    case Var(_) =>
    case App(_, args) => SubstVals(m, e, v, s, args);
  }

  lemma {:induction false} SubstVals<D(!new)>(m: Structure<D>, e: Env<D>, v: VarId, s: Term, ts: seq<Term>)
    ensures Vals(m, e, seq(|ts|, i requires 0 <= i < |ts| => SubstTerm(v, s, ts[i]))) ==
      Vals(m, Upd(e, v, Val(m, e, s)), ts)
    decreases ts
  {
    forall i | 0 <= i < |ts| { SubstTermVal(m, e, v, s, ts[i]); }
  }

  lemma ApplyAtomHolds<D(!new)>(m: Structure<D>, e: Env<D>, v: VarId, s: Term, a: Atom)
    requires v !in TermVars(s) && v !in DeepVarsOf(AtomF(a))
    ensures AtomHolds(m, e, ApplyAtom(v, s, a)) == AtomHolds(m, Upd(e, v, Val(m, e, s)), a)
  {
    match a
    case Pred(p, args) =>
      forall i | 0 <= i < |args| ensures ApplyTerm(v, s, args[i], 0) == SubstTerm(v, s, args[i]) {
        ApplyTermExact(v, s, args[i], 0);
      }
      assert ApplyAtom(v, s, a).args == seq(|args|, i requires 0 <= i < |args| => SubstTerm(v, s, args[i]));
      SubstVals(m, e, v, s, args);
    case Eq(l, r) =>
      ApplyTermExact(v, s, l, 0);
      ApplyTermExact(v, s, r, 0);
      SubstTermVal(m, e, v, s, l);
      SubstTermVal(m, e, v, s, r);
  }

  lemma {:induction false} TermVarsBelow(t: Term, x: VarId)
    ensures x in TermVars(t) ==> x <= TermMaxVar(t)
    decreases t
  {
    if t.App? { TermsVarsBelow(t.args, x); }
  }

  lemma {:induction false} TermsVarsBelow(ts: seq<Term>, x: VarId)
    ensures forall i :: 0 <= i < |ts| && x in TermVars(ts[i]) ==> x <= TermsMaxVar(ts)
    decreases ts
  {
    if ts != [] {
      TermVarsBelow(ts[0], x);
      TermsVarsBelow(ts[1..], x);
    }
  }

  lemma {:induction false} FreeVarsBelow(f: Formula, x: VarId)
    ensures x in FreeVars(f) ==> x <= MaxVar(f)
    decreases f
  {
    match f
    case AtomF(Pred(_, args)) => TermsVarsBelow(args, x);
    case AtomF(Eq(l, r)) => TermVarsBelow(l, x); TermVarsBelow(r, x);
    case Neg(g) => FreeVarsBelow(g, x);
    case And(fs) => AllFreeVarsBelow(fs, x);
    case Or(fs) => AllFreeVarsBelow(fs, x);
    case Implies(a, b) => FreeVarsBelow(a, x); FreeVarsBelow(b, x);
    case Iff(a, b) => FreeVarsBelow(a, x); FreeVarsBelow(b, x);
    case Forall(_, b) => FreeVarsBelow(b, x);
    case Exists(_, b) => FreeVarsBelow(b, x);
    case _ =>
  }

  lemma {:induction false} AllFreeVarsBelow(fs: seq<Formula>, x: VarId)
    ensures forall i :: 0 <= i < |fs| && x in FreeVars(fs[i]) ==> x <= MaxVars(fs)
    decreases fs
  {
    if fs != [] {
      FreeVarsBelow(fs[0], x);
      AllFreeVarsBelow(fs[1..], x);
    }
  }

  lemma {:induction false} RenameTermFacts<D(!new)>(m: Structure<D>, e: Env<D>, t: Term, old_: VarId, new_: VarId,
                                                    v: VarId, depth: nat)
    ensures Val(m, e, RenameTerm(t, old_, new_)) == Val(m, Upd(e, old_, e(new_)), t)
    ensures TermMaxVar(RenameTerm(t, old_, new_)) <= Max(TermMaxVar(t), new_)
    ensures v != new_ && v in DeepVars(RenameTerm(t, old_, new_), depth) ==> v in DeepVars(t, depth)
    decreases t, 0
  {
    if t.App? {
      RenameTermsFacts(m, e, t.args, old_, new_, v, depth + 1);
    }
  }

  lemma {:induction false} RenameTermsFacts<D(!new)>(m: Structure<D>, e: Env<D>, ts: seq<Term>, old_: VarId,
                                              new_: VarId,
                                                     v: VarId, depth: nat)
    ensures var rs := seq(|ts|, i requires 0 <= i < |ts| => RenameTerm(ts[i], old_, new_));
      && Vals(m, e, rs) == Vals(m, Upd(e, old_, e(new_)), ts)
      && TermsMaxVar(rs) <= Max(TermsMaxVar(ts), new_)
      && (v != new_ && v in DeepVarsAll(rs, depth) ==> v in DeepVarsAll(ts, depth))
    decreases ts, 1
  {
    var rs := seq(|ts|, i requires 0 <= i < |ts| => RenameTerm(ts[i], old_, new_));
    forall i | 0 <= i < |ts|
      ensures Val(m, e, rs[i]) == Val(m, Upd(e, old_, e(new_)), ts[i])
      ensures TermMaxVar(rs[i]) <= Max(TermMaxVar(ts[i]), new_)
      ensures v != new_ && v in DeepVars(rs[i], depth) ==> v in DeepVars(ts[i], depth)
    {
      RenameTermFacts(m, e, ts[i], old_, new_, v, depth);
    }
    MaxVarsBelow(rs, ts, new_);
  }

  lemma {:induction false} MaxVarsBelow(rs: seq<Term>, ts: seq<Term>, n: VarId)
    requires |rs| == |ts| && forall i :: 0 <= i < |ts| ==> TermMaxVar(rs[i]) <= Max(TermMaxVar(ts[i]), n)
    ensures TermsMaxVar(rs) <= Max(TermsMaxVar(ts), n)
  {
    if ts != [] { MaxVarsBelow(rs[1..], ts[1..], n); }
  }

  /** Renaming to an unused variable moves the assignment along. */
  lemma {:induction false} RenameFacts<D(!new)>(m: Structure<D>, e: Env<D>, f: Formula, old_: VarId, new_: VarId,
                                         v: VarId)
    requires MaxVar(f) < new_
    ensures Holds(m, e, RenameVar(f, old_, new_)) == Holds(m, Upd(e, old_, e(new_)), f)
    ensures MaxVar(RenameVar(f, old_, new_)) <= new_
    ensures v != new_ && v in DeepVarsOf(RenameVar(f, old_, new_)) ==> v in DeepVarsOf(f)
    decreases f, 0
  {
    match f
    case AtomF(Pred(_, args)) => RenameTermsFacts(m, e, args, old_, new_, v, 0);
    case AtomF(Eq(l, r)) =>
      RenameTermFacts(m, e, l, old_, new_, v, 0);
      RenameTermFacts(m, e, r, old_, new_, v, 0);
    case Neg(g) => RenameFacts(m, e, g, old_, new_, v);
    case And(fs) => RenameAllFacts(m, e, fs, old_, new_, v);
    case Or(fs) => RenameAllFacts(m, e, fs, old_, new_, v);
    case Implies(a, b) => RenameFacts(m, e, a, old_, new_, v); RenameFacts(m, e, b, old_, new_, v);
    case Iff(a, b) => RenameFacts(m, e, a, old_, new_, v); RenameFacts(m, e, b, old_, new_, v);
    case Forall(w, b) =>
      RenameUnder(m, e, w, e(w), b, old_, new_, v);
      forall d: D { RenameUnder(m, e, w, d, b, old_, new_, v); }
    case Exists(w, b) =>
      RenameUnder(m, e, w, e(w), b, old_, new_, v);
      forall d: D { RenameUnder(m, e, w, d, b, old_, new_, v); }
    case _ =>
  }

  lemma {:induction false} RenameAllFacts<D(!new)>(m: Structure<D>, e: Env<D>, fs: seq<Formula>, old_: VarId,
                                            new_: VarId, v: VarId)
    requires MaxVars(fs) < new_
    ensures var rs := RenameVars(fs, old_, new_);
      && |rs| == |fs| && MaxVars(rs) <= new_
      && forall i :: 0 <= i < |fs| ==>
        && Holds(m, e, rs[i]) == Holds(m, Upd(e, old_, e(new_)), fs[i])
        && (v != new_ && v in DeepVarsOf(rs[i]) ==> v in DeepVarsOf(fs[i]))
    decreases fs, 1
  {
    if fs != [] {
      RenameFacts(m, e, fs[0], old_, new_, v);
      RenameAllFacts(m, e, fs[1..], old_, new_, v);
    }
  }

  lemma {:induction false} RenameUnder<D(!new)>(m: Structure<D>, e: Env<D>, w: VarId, d: D, b: Formula,
                                                old_: VarId, new_: VarId, v: VarId)
    requires MaxVar(b) < new_ && w < new_
    ensures w != old_ ==>
      Holds(m, Upd(e, w, d), RenameVar(b, old_, new_)) == Holds(m, Upd(Upd(e, old_, e(new_)), w, d), b)
    ensures w == old_ ==> Holds(m, Upd(e, w, d), b) == Holds(m, Upd(Upd(e, old_, e(new_)), w, d), b)
    ensures w != old_ ==> MaxVar(RenameVar(b, old_, new_)) <= new_
    ensures w != old_ && v != new_ && v in DeepVarsOf(RenameVar(b, old_, new_)) ==> v in DeepVarsOf(b)
    decreases b, 1
  {
    var e1 := Upd(e, w, d);
    if w != old_ { RenameFacts(m, e1, b, old_, new_, v); }
    HoldsAgree(m, m, if w == old_ then e1 else Upd(e1, old_, e(new_)), Upd(Upd(e, old_, e(new_)), w, d), b, 0);
  }

  /** Substitution is capture-avoiding: whatever the binders of `f`, as long as `v` is not free
      below the nesting cut-off, replacing it is an update of the assignment. */
  lemma {:induction false} ApplyHolds<D(!new)>(m: Structure<D>, e: Env<D>, v: VarId, s: Term, f: Formula, next: VarId)
    requires v !in TermVars(s) && v !in DeepVarsOf(f)
    requires v < next && TermMaxVar(s) < next && MaxVar(f) < next
    ensures Holds(m, e, Apply(v, s, f, next).0) == Holds(m, Upd(e, v, Val(m, e, s)), f)
    decreases Size(f), 0
  {
    match f
    case AtomF(a) => ApplyAtomHolds(m, e, v, s, a);
    case Neg(g) => ApplyHolds(m, e, v, s, g, next);
    case And(fs) => ApplyAllHolds(m, e, v, s, fs, next);
    case Or(fs) => ApplyAllHolds(m, e, v, s, fs, next);
    case Implies(a, b) => ApplyHolds(m, e, v, s, a, next); ApplyHolds(m, e, v, s, b, Apply(v, s, a, next).1);
    case Iff(a, b) => ApplyHolds(m, e, v, s, a, next); ApplyHolds(m, e, v, s, b, Apply(v, s, a, next).1);
    case Forall(w, b) => ApplyBinderHolds(m, e, v, s, f, next);
    case Exists(w, b) => ApplyBinderHolds(m, e, v, s, f, next);
    case _ =>
  }

  lemma {:induction false} ApplyAllHolds<D(!new)>(m: Structure<D>, e: Env<D>, v: VarId, s: Term, fs: seq<Formula>,
                                           next: VarId)
    requires v !in TermVars(s) && forall i :: 0 <= i < |fs| ==> v !in DeepVarsOf(fs[i])
    requires v < next && TermMaxVar(s) < next && MaxVars(fs) < next
    ensures forall i :: 0 <= i < |fs| ==>
      Holds(m, e, ApplyAll(v, s, fs, next).0[i]) == Holds(m, Upd(e, v, Val(m, e, s)), fs[i])
    decreases Sizes(fs), 1
  {
    if fs != [] {
      ApplyHolds(m, e, v, s, fs[0], next);
      ApplyAllHolds(m, e, v, s, fs[1..], Apply(v, s, fs[0], next).1);
    }
  }

  /** The three branches at a binder: shadowed, renamed apart, passed through. */
  lemma {:induction false} ApplyBinderHolds<D(!new)>(m: Structure<D>, e: Env<D>, v: VarId, s: Term, f: Formula,
                                              next: VarId)
    requires f.Forall? || f.Exists?
    requires v !in TermVars(s) && v !in DeepVarsOf(f)
    requires v < next && TermMaxVar(s) < next && MaxVar(f) < next
    ensures Holds(m, e, Apply(v, s, f, next).0) == Holds(m, Upd(e, v, Val(m, e, s)), f)
    decreases Size(f.body), 2
  {
    var w, b, val := f.bound, f.body, Val(m, e, s);
    if w == v {
      HoldsAgree(m, m, e, Upd(e, v, val), f, 0);
    } else if w in TermVars(s) {
      forall d: D
        ensures Holds(m, Upd(e, next, d), Apply(v, s, RenameVar(b, w, next), next + 1).0) ==
          Holds(m, Upd(Upd(e, v, val), w, d), b)
      {
        ApplyRenamed(m, e, v, s, w, d, b, next);
      }
    } else {
      forall d: D ensures Holds(m, Upd(e, w, d), Apply(v, s, b, next).0) == Holds(m, Upd(Upd(e, v, val), w, d), b) {
        var e1 := Upd(e, w, d);
        ApplyHolds(m, e1, v, s, b, next);
        ValAgree(m, m, e1, e, s, 0);
        HoldsAgree(m, m, Upd(e1, v, val), Upd(Upd(e, v, val), w, d), b, 0);
      }
    }
  }

  lemma {:induction false} ApplyRenamed<D(!new)>(m: Structure<D>, e: Env<D>, v: VarId, s: Term, w: VarId, d: D,
                                                 b: Formula, next: VarId)
    requires v !in TermVars(s) && v !in DeepVarsOf(b) && w != v
    requires v < next && w < next && TermMaxVar(s) < next && MaxVar(b) < next
    ensures Holds(m, Upd(e, next, d), Apply(v, s, RenameVar(b, w, next), next + 1).0) ==
      Holds(m, Upd(Upd(e, v, Val(m, e, s)), w, d), b)
    decreases Size(b), 1
  {
    var e1, g := Upd(e, next, d), RenameVar(b, w, next);
    var e2 := Upd(e1, v, Val(m, e1, s));
    RenameFacts(m, e2, b, w, next, v);
    ApplyHolds(m, e1, v, s, g, next + 1);
    TermVarsBelow(s, next);
    ValAgree(m, m, e1, e, s, 0);
    FreeVarsBelow(b, next);
    HoldsAgree(m, m, Upd(e2, w, d), Upd(Upd(e, v, Val(m, e, s)), w, d), b, 0);
  }

  lemma ApplySingletonHolds<D(!new)>(m: Structure<D>, e: Env<D>, v: VarId, s: Term, f: Formula)
    requires v !in TermVars(s) && v !in DeepVarsOf(f)
    ensures Holds(m, e, ApplySingleton(v, s, f)) == Holds(m, Upd(e, v, Val(m, e, s)), f)
  {
    ApplyHolds(m, e, v, s, f, Max(Max(v, TermMaxVar(s)), MaxVar(f)) + 1);
  }
}
