/** `rename_complex_equivalences`: naming the sides of equivalences before NNF conversion. */
module IffRenaming {
  import opened Wrappers
  import opened Fol
  import opened Substitution
  import opened NormalForm
  import opened Distribution
  import opened ClauseCount
  import opened Tseitin

  /** `forall vars. (sym(vars) <=> rhs)`; the pass only ever records both polarities. */
  datatype IffDef = IffDef(sym: SymbolId, vars: seq<VarId>, rhs: Formula) {
    function Head(): Formula { AtomF(Pred(sym, VarTerms(vars))) }
    function Biconditional(): Formula { Iff(Head(), rhs) }
  }

  predicate HasIff(f: Formula) {
    match f
    case Iff(_, _) => true
    case Neg(g) => HasIff(g)
    case And(fs) => exists i :: 0 <= i < |fs| && HasIff(fs[i])
    case Or(fs) => exists i :: 0 <= i < |fs| && HasIff(fs[i])
    case Implies(a, b) => HasIff(a) || HasIff(b)
    case Forall(_, b) => HasIff(b)
    case Exists(_, b) => HasIff(b)
    case _ => false
  }

  /** `needs_biconditional_naming`. */
  predicate NeedsNaming(f: Formula, other: Formula, threshold: nat) {
    if IsLiteral(f) then false
    else if HasIff(f) || !QuantifierFree(f) || !IsLiteral(other) then true
    else Estimate(Iff(f, other), false) > threshold
  }

  datatype Renamed = Renamed(formula: Formula, defs: seq<IffDef>, next: SymbolId)
  datatype RenamedAll = RenamedAll(formulas: seq<Formula>, defs: seq<IffDef>, next: SymbolId)

  function DefFor(f: Formula, n: SymbolId): IffDef { IffDef(n, Sorted(FreeVars(f)), f) }

  /** One side of an equivalence: replaced by a fresh atom when it needs a name. */
  function Side(f: Formula, other: Formula, threshold: nat, n: SymbolId): (r: Renamed)
    ensures n <= r.next
  {
    if NeedsNaming(f, other, threshold) then Renamed(DefFor(f, n).Head(), [DefFor(f, n)], n + 1)
    else Renamed(f, [], n)
  }

  /** `BicondCtx::traverse`. */
  function Rename(f: Formula, threshold: nat, n: SymbolId): (r: Renamed)
    ensures n <= r.next
    decreases f, 0
  {
    match f
    case Neg(g) => var r := Rename(g, threshold, n); Renamed(Neg(r.formula), r.defs, r.next)
    case And(fs) => var r := RenameAll(fs, threshold, n); Renamed(And(r.formulas), r.defs, r.next)
    case Or(fs) => var r := RenameAll(fs, threshold, n); Renamed(Or(r.formulas), r.defs, r.next)
    case Implies(a, b) =>
      var x := Rename(a, threshold, n);
      var y := Rename(b, threshold, x.next);
      Renamed(Implies(x.formula, y.formula), x.defs + y.defs, y.next)
    case Forall(v, b) => var r := Rename(b, threshold, n); Renamed(Forall(v, r.formula), r.defs, r.next)
    case Exists(v, b) => var r := Rename(b, threshold, n); Renamed(Exists(v, r.formula), r.defs, r.next)
    case Iff(a, b) =>
      var x := Rename(a, threshold, n);
      var y := Rename(b, threshold, x.next);
      var p := Side(x.formula, y.formula, threshold, y.next);
      var q := Side(y.formula, x.formula, threshold, p.next);
      Renamed(Iff(p.formula, q.formula), x.defs + y.defs + p.defs + q.defs, q.next)
    case _ => Renamed(f, [], n)
  }

  function RenameAll(fs: seq<Formula>, threshold: nat, n: SymbolId): (r: RenamedAll)
    ensures n <= r.next && |r.formulas| == |fs|
    decreases fs, 1
  {
    if fs == [] then RenamedAll([], [], n) else
    var x := Rename(fs[0], threshold, n);
    var y := RenameAll(fs[1..], threshold, x.next);
    RenamedAll([x.formula] + y.formulas, x.defs + y.defs, y.next)
  }

  /** A formula without equivalences is left as it is. */
  lemma {:induction false} RenameNothing(f: Formula, threshold: nat, n: SymbolId)
    requires !HasIff(f)
    ensures Rename(f, threshold, n) == Renamed(f, [], n)
    decreases f, 0
  {
    match f
    case Neg(g) => RenameNothing(g, threshold, n);
    case And(fs) => RenameAllNothing(fs, threshold, n);
    case Or(fs) => RenameAllNothing(fs, threshold, n);
    case Implies(a, b) => RenameNothing(a, threshold, n); RenameNothing(b, threshold, n);
    case Forall(_, b) => RenameNothing(b, threshold, n);
    case Exists(_, b) => RenameNothing(b, threshold, n);
    case _ =>
  }

  lemma {:induction false} RenameAllNothing(fs: seq<Formula>, threshold: nat, n: SymbolId)
    requires forall i :: 0 <= i < |fs| ==> !HasIff(fs[i])
    ensures RenameAll(fs, threshold, n) == RenamedAll(fs, [], n)
    decreases fs, 1
  {
    if fs != [] { RenameNothing(fs[0], threshold, n); RenameAllNothing(fs[1..], threshold, n); }
  }

  function Close(vars: seq<VarId>, f: Formula): Formula {
    if vars == [] then f else Forall(vars[0], Close(vars[1..], f))
  }

  /** The closed biconditional that is clausified for an introduced definition. */
  function ClosedDefinition(d: IffDef): Formula {
    Close(Sorted(FreeVars(d.Biconditional())), d.Biconditional())
  }

  // ----- dependency order

  /** A definition is about symbols older than its own, which lies between `n` and `k`. */
  ghost predicate OlderRhs(d: IffDef, n: SymbolId, k: SymbolId) {
    && n <= d.sym < k
    && SymsBelow(d.rhs, d.sym)
    && (forall x :: x in FreeVars(d.rhs) <==> x in d.vars)
  }

  /** Definitions in dependency order. */
  ghost predicate Ordered(defs: seq<IffDef>, n: SymbolId, k: SymbolId) {
    n <= k && (defs != [] ==> OlderRhs(defs[0], n, k) && Ordered(defs[1..], defs[0].sym + 1, k))
  }

  lemma {:induction false} OrderedConcat(p: seq<IffDef>, q: seq<IffDef>, n: SymbolId, k: SymbolId, l: SymbolId)
    requires Ordered(p, n, k) && Ordered(q, k, l)
    ensures Ordered(p + q, n, l)
  {
    if p == [] {
      assert p + q == q;
      OrderedFrom(q, n, k, l);
    } else {
      OrderedConcat(p[1..], q, p[0].sym + 1, k, l);
      assert (p + q)[1..] == p[1..] + q;
    }
  }

  lemma OrderedFrom(q: seq<IffDef>, n: SymbolId, k: SymbolId, l: SymbolId)
    requires Ordered(q, k, l) && n <= k
    ensures Ordered(q, n, l)
  {
  }

  // ----- meaning

  /** `m` satisfies the universal closure of every definition. */
  ghost predicate DefsTrue<D(!new)>(m: Structure<D>, defs: seq<IffDef>) {
    forall i :: 0 <= i < |defs| ==> Valid(m, defs[i].Biconditional())
  }

  lemma DefsTrueSplit<D(!new)>(m: Structure<D>, p: seq<IffDef>, q: seq<IffDef>)
    ensures DefsTrue(m, p + q) == (DefsTrue(m, p) && DefsTrue(m, q))
  {
    if DefsTrue(m, p + q) {
      forall i | 0 <= i < |p| ensures Valid(m, p[i].Biconditional()) { assert (p + q)[i] == p[i]; }
      forall i | 0 <= i < |q| ensures Valid(m, q[i].Biconditional()) { assert (p + q)[|p| + i] == q[i]; }
    }
  }

  /** `f` and `g` have the same truth value in `m` under every assignment. */
  ghost predicate Same<D(!new)>(m: Structure<D>, f: Formula, g: Formula) {
    forall e: Env<D> :: Holds(m, e, f) == Holds(m, e, g)
  }

  lemma SideSame<D(!new)>(m: Structure<D>, f: Formula, other: Formula, threshold: nat, n: SymbolId)
    requires DefsTrue(m, Side(f, other, threshold, n).defs)
    ensures Same(m, Side(f, other, threshold, n).formula, f)
  {
    if NeedsNaming(f, other, threshold) {
      var d := DefFor(f, n);
      assert Valid(m, [d][0].Biconditional());
      forall e: Env<D> ensures Holds(m, e, d.Head()) == Holds(m, e, f) { assert Holds(m, e, d.Biconditional()); }
    }
  }

  /** Where the definitions are true, renaming changes no truth value. */
  lemma {:induction false} RenameSame<D(!new)>(m: Structure<D>, f: Formula, threshold: nat, n: SymbolId)
    requires DefsTrue(m, Rename(f, threshold, n).defs)
    ensures Same(m, Rename(f, threshold, n).formula, f)
    decreases f, 0
  {
    match f
    case Neg(g) => RenameSame(m, g, threshold, n);
    case And(fs) =>
      RenameAllSame(m, fs, threshold, n);
      forall e: Env<D> { SameParts(m, m, e, RenameAll(fs, threshold, n).formulas, fs); }
    case Or(fs) =>
      RenameAllSame(m, fs, threshold, n);
      forall e: Env<D> { SameParts(m, m, e, RenameAll(fs, threshold, n).formulas, fs); }
    case Implies(a, b) =>
      var x := Rename(a, threshold, n);
      DefsTrueSplit(m, x.defs, Rename(b, threshold, x.next).defs);
      RenameSame(m, a, threshold, n);
      RenameSame(m, b, threshold, x.next);
    case Forall(v, b) => RenameSame(m, b, threshold, n);
    case Exists(v, b) => RenameSame(m, b, threshold, n);
    case Iff(a, b) =>
      var x := Rename(a, threshold, n);
      var y := Rename(b, threshold, x.next);
      var p := Side(x.formula, y.formula, threshold, y.next);
      var q := Side(y.formula, x.formula, threshold, p.next);
      DefsTrueSplit(m, x.defs, y.defs);
      DefsTrueSplit(m, x.defs + y.defs, p.defs);
      DefsTrueSplit(m, x.defs + y.defs + p.defs, q.defs);
      RenameSame(m, a, threshold, n);
      RenameSame(m, b, threshold, x.next);
      SideSame(m, x.formula, y.formula, threshold, y.next);
      SideSame(m, y.formula, x.formula, threshold, p.next);
    case _ =>
  }

  lemma {:induction false} RenameAllSame<D(!new)>(m: Structure<D>, fs: seq<Formula>, threshold: nat, n: SymbolId)
    requires DefsTrue(m, RenameAll(fs, threshold, n).defs)
    ensures forall i :: 0 <= i < |fs| ==> Same(m, RenameAll(fs, threshold, n).formulas[i], fs[i])
    decreases fs, 1
  {
    if fs != [] {
      var x := Rename(fs[0], threshold, n);
      DefsTrueSplit(m, x.defs, RenameAll(fs[1..], threshold, x.next).defs);
      RenameSame(m, fs[0], threshold, n);
      RenameAllSame(m, fs[1..], threshold, x.next);
    }
  }

  /** Definitions in dependency order can always be made true on their fresh symbols. */
  lemma {:induction false} ExtendDefs<D(!new, 00)>(m: Structure<D>, defs: seq<IffDef>, n: SymbolId, k: SymbolId)
    returns (m2: Structure<D>)
    requires Ordered(defs, n, k)
    ensures AgreeBelow(m, m2, n) && DefsTrue(m2, defs)
    decreases defs
  {
    if defs == [] { return m; }
    var d := defs[0];
    var m1 := WithPredicate(m, d.sym, d.vars, d.rhs);
    m2 := ExtendDefs(m1, defs[1..], d.sym + 1, k);
    forall e: Env<D> ensures Holds(m2, e, d.Biconditional()) {
      PredicateMeans(m, e, d.sym, d.vars, d.rhs);
      SymsMono(d.rhs, d.sym, d.sym + 1);
      HoldsAgree(m1, m2, e, e, d.Biconditional(), d.sym + 1);
    }
    DefsTrueSplit(m2, [d], defs[1..]);
    assert defs == [d] + defs[1..];
  }

  // ----- shape

  predicate IffFlat(f: Formula) {
    match f
    case Iff(a, b) => !HasIff(a) && !HasIff(b)
    case Neg(g) => IffFlat(g)
    case And(fs) => forall i :: 0 <= i < |fs| ==> IffFlat(fs[i])
    case Or(fs) => forall i :: 0 <= i < |fs| ==> IffFlat(fs[i])
    case Implies(a, b) => IffFlat(a) && IffFlat(b)
    case Forall(_, b) => IffFlat(b)
    case Exists(_, b) => IffFlat(b)
    case _ => true
  }

  /** `g` came out of renaming (part of) `f`: its binders are distinct and among those of `f`. */
  ghost predicate Tame(g: Formula, f: Formula) {
    Distinct(g) && BoundVars(g) <= BoundVars(f)
  }

  ghost predicate TameDefs(defs: seq<IffDef>, f: Formula) {
    forall i :: 0 <= i < |defs| ==>
      Tame(defs[i].rhs, f) && (FreeVars(f) !! BoundVars(f) ==> FreeVars(defs[i].rhs) !! BoundVars(defs[i].rhs))
  }

  lemma TameDefsWeaken(defs: seq<IffDef>, f: Formula, g: Formula)
    requires TameDefs(defs, f)
    requires BoundVars(f) <= BoundVars(g)
    requires FreeVars(g) !! BoundVars(g) ==> FreeVars(f) !! BoundVars(f)
    ensures TameDefs(defs, g)
  {
  }

  lemma TameDefsConcat(p: seq<IffDef>, q: seq<IffDef>, f: Formula)
    requires TameDefs(p, f) && TameDefs(q, f)
    ensures TameDefs(p + q, f)
  {
  }

  ghost predicate RenameOut(r: Renamed, f: Formula, n: SymbolId) {
    && Tame(r.formula, f) && FreeVars(r.formula) == FreeVars(f)
    && SymsBelow(r.formula, r.next)
    && Ordered(r.defs, n, r.next) && TameDefs(r.defs, f)
  }

  lemma SideShape(g: Formula, other: Formula, threshold: nat, n: SymbolId, f: Formula)
    requires Tame(g, f) && FreeVars(g) <= FreeVars(f) && SymsBelow(g, n)
    ensures var r := Side(g, other, threshold, n);
      && Tame(r.formula, f) && FreeVars(r.formula) == FreeVars(g) && BoundVars(r.formula) <= BoundVars(g)
      && SymsBelow(r.formula, r.next) && Ordered(r.defs, n, r.next) && TameDefs(r.defs, f)
  {
    if NeedsNaming(g, other, threshold) {
      var d := DefFor(g, n);
      HeadShape(g, n);
      assert Ordered([d][1..], n + 1, n + 1);
    }
  }

  lemma HeadShape(g: Formula, n: SymbolId)
    ensures FreeVars(DefFor(g, n).Head()) == FreeVars(g)
    ensures DeepVarsAll(VarTerms(DefFor(g, n).vars), 0) == {}
  {
    VarTermsShape(DefFor(g, n).vars);
  }

  lemma VarTermsShape(xs: seq<VarId>)
    ensures forall a, n: SymbolId :: a == Pred(n, VarTerms(xs)) ==> AtomVars(a) == (set x | x in xs)
    ensures DeepVarsAll(VarTerms(xs), 0) == {}
  {
    forall a, n: SymbolId | a == Pred(n, VarTerms(xs)) ensures AtomVars(a) == (set x | x in xs) {
      forall x | x in xs ensures x in AtomVars(a) {
        var i :| 0 <= i < |xs| && xs[i] == x;
        assert x in TermVars(VarTerms(xs)[i]);
      }
    }
  }

  lemma {:induction false} RenameShape(f: Formula, threshold: nat, n: SymbolId)
    requires Distinct(f) && SymsBelow(f, n)
    ensures RenameOut(Rename(f, threshold, n), f, n)
    decreases f, 2
  {
    match f
    case Neg(g) => RenameShape(g, threshold, n); UnaryShape(f, g, Rename(g, threshold, n), n);
    case And(fs) => RenameAllShape(fs, threshold, n); PartsOut(RenameAll(fs, threshold, n), fs, n);
    case Or(fs) => RenameAllShape(fs, threshold, n); PartsOut(RenameAll(fs, threshold, n), fs, n);
    case Implies(a, b) => BothShape(f, threshold, n);
    case Forall(v, b) => RenameShape(b, threshold, n); UnaryShape(f, b, Rename(b, threshold, n), n);
    case Exists(v, b) => RenameShape(b, threshold, n); UnaryShape(f, b, Rename(b, threshold, n), n);
    case Iff(a, b) =>
      BothShape(f, threshold, n);
      var x := Rename(a, threshold, n);
      var y := Rename(b, threshold, x.next);
      IffShape(f, threshold, n, x, y);
    case _ =>
  }

  lemma UnaryShape(f: Formula, g: Formula, x: Renamed, n: SymbolId)
    requires f == Neg(g) || ((f.Forall? || f.Exists?) && f.body == g)
    requires Distinct(f) && RenameOut(x, g, n)
    ensures
      var h := if f.Neg? then Neg(x.formula) else if f.Forall? then Forall(f.bound, x.formula)
        else Exists(f.bound, x.formula);
      RenameOut(Renamed(h, x.defs, x.next), f, n)
  {
    TameDefsWeaken(x.defs, g, f);
  }

  lemma {:induction false} BothShape(f: Formula, threshold: nat, n: SymbolId)
    requires (f.Implies? || f.Iff?) && Distinct(f) && SymsBelow(f, n)
    ensures var x := Rename(f.lhs, threshold, n); var y := Rename(f.rhs, threshold, x.next);
      && RenameOut(x, f.lhs, n) && RenameOut(y, f.rhs, x.next)
      && Ordered(x.defs + y.defs, n, y.next) && TameDefs(x.defs + y.defs, f)
      && SymsBelow(x.formula, y.next)
    decreases f, 1
  {
    var x := Rename(f.lhs, threshold, n);
    var y := Rename(f.rhs, threshold, x.next);
    SymsMono(f.rhs, n, x.next);
    RenameShape(f.lhs, threshold, n);
    RenameShape(f.rhs, threshold, x.next);
    OrderedConcat(x.defs, y.defs, n, x.next, y.next);
    TameDefsWeaken(x.defs, f.lhs, f);
    TameDefsWeaken(y.defs, f.rhs, f);
    TameDefsConcat(x.defs, y.defs, f);
    SymsMono(x.formula, x.next, y.next);
  }

  lemma IffShape(f: Formula, threshold: nat, n: SymbolId, x: Renamed, y: Renamed)
    requires f.Iff? && Distinct(f)
    requires RenameOut(x, f.lhs, n) && RenameOut(y, f.rhs, x.next)
    requires Ordered(x.defs + y.defs, n, y.next) && TameDefs(x.defs + y.defs, f) && SymsBelow(x.formula, y.next)
    ensures
      var p := Side(x.formula, y.formula, threshold, y.next);
      var q := Side(y.formula, x.formula, threshold, p.next);
      RenameOut(Renamed(Iff(p.formula, q.formula), x.defs + y.defs + p.defs + q.defs, q.next), f, n)
  {
    var p := Side(x.formula, y.formula, threshold, y.next);
    var q := Side(y.formula, x.formula, threshold, p.next);
    SideShape(x.formula, y.formula, threshold, y.next, f);
    SymsMono(y.formula, y.next, p.next);
    SideShape(y.formula, x.formula, threshold, p.next, f);
    SymsMono(p.formula, p.next, q.next);
    OrderedConcat(x.defs + y.defs, p.defs, n, y.next, p.next);
    OrderedConcat(x.defs + y.defs + p.defs, q.defs, n, p.next, q.next);
    TameDefsConcat(x.defs + y.defs, p.defs, f);
    TameDefsConcat(x.defs + y.defs + p.defs, q.defs, f);
  }

  ghost predicate PartsReady(r: RenamedAll, fs: seq<Formula>, n: SymbolId) {
    && |r.formulas| == |fs|
    && (forall i :: 0 <= i < |fs| ==>
      Tame(r.formulas[i], fs[i]) && FreeVars(r.formulas[i]) == FreeVars(fs[i]) && SymsBelow(r.formulas[i], r.next))
    && Ordered(r.defs, n, r.next) && TameDefs(r.defs, And(fs))
  }

  lemma PartsOut(r: RenamedAll, fs: seq<Formula>, n: SymbolId)
    requires PartsReady(r, fs, n) && DistinctAll(fs)
    ensures RenameOut(Renamed(And(r.formulas), r.defs, r.next), And(fs), n)
    ensures RenameOut(Renamed(Or(r.formulas), r.defs, r.next), Or(fs), n)
  {
    assert FreeVars(And(fs)) == FreeVars(Or(fs)) == FreeVars(And(r.formulas)) == FreeVars(Or(r.formulas));
    assert BoundVars(And(fs)) == BoundVars(Or(fs));
    TameDefsWeaken(r.defs, And(fs), Or(fs));
  }

  lemma RestVars(fs: seq<Formula>)
    requires fs != []
    ensures FreeVars(fs[0]) <= FreeVars(And(fs)) && BoundVars(fs[0]) <= BoundVars(And(fs))
    ensures FreeVars(And(fs[1..])) <= FreeVars(And(fs)) && BoundVars(And(fs[1..])) <= BoundVars(And(fs))
  {
    forall i | 0 <= i < |fs[1..]| ensures fs[1..][i] == fs[i + 1] {}
  }

  lemma RestShallow(fs: seq<Formula>, negated: bool)
    requires fs != [] && Shallow(And(fs), negated)
    ensures Shallow(fs[0], negated) && Shallow(And(fs[1..]), negated)
  {
    forall i | 0 <= i < |fs[1..]| ensures Shallow(fs[1..][i], negated) { assert fs[1..][i] == fs[i + 1]; }
  }

  lemma PartsCons(x: Renamed, y: RenamedAll, fs: seq<Formula>, n: SymbolId)
    requires fs != [] && RenameOut(x, fs[0], n) && PartsReady(y, fs[1..], x.next)
    ensures PartsReady(RenamedAll([x.formula] + y.formulas, x.defs + y.defs, y.next), fs, n)
  {
    OrderedConcat(x.defs, y.defs, n, x.next, y.next);
    RestVars(fs);
    TameDefsWeaken(x.defs, fs[0], And(fs));
    TameDefsWeaken(y.defs, And(fs[1..]), And(fs));
    TameDefsConcat(x.defs, y.defs, And(fs));
    SymsMono(x.formula, x.next, y.next);
    var gs := [x.formula] + y.formulas;
    forall i | 0 <= i < |fs|
      ensures Tame(gs[i], fs[i]) && FreeVars(gs[i]) == FreeVars(fs[i]) && SymsBelow(gs[i], y.next)
    {
      if i > 0 { assert gs[i] == y.formulas[i - 1] && fs[i] == fs[1..][i - 1]; }
    }
  }

  lemma {:induction false} RenameAllShape(fs: seq<Formula>, threshold: nat, n: SymbolId)
    requires DistinctAll(fs) && SymsBelow(And(fs), n)
    ensures PartsReady(RenameAll(fs, threshold, n), fs, n)
    decreases fs, 0
  {
    if fs != [] {
      var rest := fs[1..];
      var x := Rename(fs[0], threshold, n);
      forall i | 0 <= i < |rest| ensures SymsBelow(rest[i], x.next) { SymsMono(fs[i + 1], n, x.next); }
      RenameShape(fs[0], threshold, n);
      RenameAllShape(rest, threshold, x.next);
      PartsCons(x, RenameAll(rest, threshold, x.next), fs, n);
    }
  }

  // ----- equivalences, variables and nesting

  /** A definition introduced inside `f`. Its right side was a side of an equivalence, so both
      polarities of it are already part of `f`. */
  ghost predicate DefKept(d: IffDef, f: Formula) {
    && IffFlat(d.rhs)
    && d.vars == Sorted(FreeVars(d.rhs)) && FreeVars(d.rhs) <= FreeVars(f) + BoundVars(f)
    && (Shallow(f, true) || Shallow(f, false) ==> Shallow(d.rhs, true) && Shallow(d.rhs, false))
  }

  ghost predicate DefsKept(defs: seq<IffDef>, f: Formula) { forall i :: 0 <= i < |defs| ==> DefKept(defs[i], f) }

  ghost predicate FormulaKept(g: Formula, f: Formula) {
    && IffFlat(g)
    && FreeVars(g) == FreeVars(f) && DeepVarsOf(g) <= DeepVarsOf(f)
    && (Shallow(f, true) ==> Shallow(g, true)) && (Shallow(f, false) ==> Shallow(g, false))
  }

  lemma DefsKeptWeaken(defs: seq<IffDef>, f: Formula, g: Formula)
    requires DefsKept(defs, f) && FreeVars(f) + BoundVars(f) <= FreeVars(g) + BoundVars(g)
    requires Shallow(g, true) || Shallow(g, false) ==> Shallow(f, true) || Shallow(f, false)
    ensures DefsKept(defs, g)
  {
  }

  lemma DefsKeptConcat(p: seq<IffDef>, q: seq<IffDef>, f: Formula)
    requires DefsKept(p, f) && DefsKept(q, f)
    ensures DefsKept(p + q, f)
  {
  }

  lemma SideKept(g: Formula, h: Formula, other: Formula, threshold: nat, n: SymbolId, f: Formula)
    requires FormulaKept(g, h) && f.Iff? && (h == f.lhs || h == f.rhs)
    ensures var r := Side(g, other, threshold, n);
      && FormulaKept(r.formula, h) && !HasIff(r.formula) && DefsKept(r.defs, f)
  {
    if NeedsNaming(g, other, threshold) {
      HeadShape(g, n);
      assert DefKept(DefFor(g, n), f);
    }
  }

  /** Renaming flattens equivalences, keeps free variables, moves none below the nesting
      cut-off, and gives a definition no parameter that is not a variable of the input. */
  lemma {:induction false} RenameKeeps(f: Formula, threshold: nat, n: SymbolId)
    ensures var r := Rename(f, threshold, n); FormulaKept(r.formula, f) && DefsKept(r.defs, f)
    decreases f, 2
  {
    match f
    case Neg(g) => RenameKeeps(g, threshold, n); DefsKeptWeaken(Rename(g, threshold, n).defs, g, f);
    case And(fs) => RenameAllKeeps(fs, threshold, n); PartsKept(RenameAll(fs, threshold, n), fs);
    case Or(fs) => RenameAllKeeps(fs, threshold, n); PartsKept(RenameAll(fs, threshold, n), fs);
    case Implies(a, b) => BothKept(f, threshold, n);
    case Iff(a, b) =>
      BothKept(f, threshold, n);
      var x := Rename(a, threshold, n);
      var y := Rename(b, threshold, x.next);
      var p := Side(x.formula, y.formula, threshold, y.next);
      SideKept(x.formula, a, y.formula, threshold, y.next, f);
      SideKept(y.formula, b, x.formula, threshold, p.next, f);
      DefsKeptConcat(x.defs + y.defs, p.defs, f);
      DefsKeptConcat(x.defs + y.defs + p.defs, Side(y.formula, x.formula, threshold, p.next).defs, f);
    case Forall(v, b) => RenameKeeps(b, threshold, n); DefsKeptWeaken(Rename(b, threshold, n).defs, b, f);
    case Exists(v, b) => RenameKeeps(b, threshold, n); DefsKeptWeaken(Rename(b, threshold, n).defs, b, f);
    case _ =>
  }

  lemma {:induction false} BothKept(f: Formula, threshold: nat, n: SymbolId)
    requires f.Implies? || f.Iff?
    ensures var x := Rename(f.lhs, threshold, n); var y := Rename(f.rhs, threshold, x.next);
      FormulaKept(x.formula, f.lhs) && FormulaKept(y.formula, f.rhs) && DefsKept(x.defs + y.defs, f)
    decreases f, 1
  {
    var x := Rename(f.lhs, threshold, n);
    var y := Rename(f.rhs, threshold, x.next);
    RenameKeeps(f.lhs, threshold, n);
    RenameKeeps(f.rhs, threshold, x.next);
    DefsKeptWeaken(x.defs, f.lhs, f);
    DefsKeptWeaken(y.defs, f.rhs, f);
    DefsKeptConcat(x.defs, y.defs, f);
  }

  lemma PartsKept(r: RenamedAll, fs: seq<Formula>)
    requires |r.formulas| == |fs| && forall i :: 0 <= i < |fs| ==> FormulaKept(r.formulas[i], fs[i])
    requires DefsKept(r.defs, And(fs))
    ensures FormulaKept(And(r.formulas), And(fs)) && FormulaKept(Or(r.formulas), Or(fs)) && DefsKept(r.defs, Or(fs))
  {
    assert FreeVars(And(fs)) == FreeVars(Or(fs)) == FreeVars(And(r.formulas)) == FreeVars(Or(r.formulas));
    assert BoundVars(And(fs)) == BoundVars(Or(fs)) && DeepVarsOf(And(fs)) == DeepVarsOf(Or(fs));
    assert DeepVarsOf(And(r.formulas)) == DeepVarsOf(Or(r.formulas)) <= DeepVarsOf(And(fs));
    DefsKeptWeaken(r.defs, And(fs), Or(fs));
  }

  lemma {:induction false} RenameAllKeeps(fs: seq<Formula>, threshold: nat, n: SymbolId)
    ensures var r := RenameAll(fs, threshold, n);
      (forall i :: 0 <= i < |fs| ==> FormulaKept(r.formulas[i], fs[i])) && DefsKept(r.defs, And(fs))
    decreases fs, 1
  {
    if fs != [] {
      var x := Rename(fs[0], threshold, n);
      var y := RenameAll(fs[1..], threshold, x.next);
      RenameKeeps(fs[0], threshold, n);
      RenameAllKeeps(fs[1..], threshold, x.next);
      RestVars(fs);
      forall negated | Shallow(And(fs), negated) { RestShallow(fs, negated); }
      DefsKeptWeaken(x.defs, fs[0], And(fs));
      DefsKeptWeaken(y.defs, And(fs[1..]), And(fs));
      DefsKeptConcat(x.defs, y.defs, And(fs));
    }
  }

  // ----- size

  function IffCount(f: Formula): nat {
    match f
    case Neg(g) => IffCount(g)
    case And(fs) => IffCounts(fs)
    case Or(fs) => IffCounts(fs)
    case Implies(a, b) => IffCount(a) + IffCount(b)
    case Iff(a, b) => 1 + IffCount(a) + IffCount(b)
    case Forall(_, b) => IffCount(b)
    case Exists(_, b) => IffCount(b)
    case _ => 0
  }

  function IffCounts(fs: seq<Formula>): nat {
    if fs == [] then 0 else IffCount(fs[0]) + IffCounts(fs[1..])
  }

  function RhsSize(defs: seq<IffDef>): nat {
    if defs == [] then 0 else Size(defs[0].rhs) + RhsSize(defs[1..])
  }

  lemma {:induction false} RhsSizeConcat(p: seq<IffDef>, q: seq<IffDef>)
    ensures RhsSize(p + q) == RhsSize(p) + RhsSize(q)
  {
    if p == [] { assert p + q == q; } else { assert (p + q)[1..] == p[1..] + q; RhsSizeConcat(p[1..], q); }
  }

  lemma SideSize(f: Formula, other: Formula, threshold: nat, n: SymbolId)
    ensures var r := Side(f, other, threshold, n);
      Size(r.formula) + RhsSize(r.defs) == Size(f) + |r.defs| && |r.defs| <= 1
  {
    if NeedsNaming(f, other, threshold) { assert [DefFor(f, n)][1..] == []; }
  }

  /** Naming moves subformulas into definitions: nothing is copied, one atom is added each. */
  lemma {:induction false} RenameSize(f: Formula, threshold: nat, n: SymbolId)
    ensures var r := Rename(f, threshold, n);
      Size(r.formula) + RhsSize(r.defs) == Size(f) + |r.defs| && |r.defs| <= 2 * IffCount(f)
    decreases f, 0
  {
    match f
    case Neg(g) => RenameSize(g, threshold, n);
    case And(fs) => RenameAllSize(fs, threshold, n);
    case Or(fs) => RenameAllSize(fs, threshold, n);
    case Implies(a, b) =>
      var x := Rename(a, threshold, n);
      var y := Rename(b, threshold, x.next);
      RenameSize(a, threshold, n);
      RenameSize(b, threshold, x.next);
      RhsSizeConcat(x.defs, y.defs);
      assert Rename(f, threshold, n) == Renamed(Implies(x.formula, y.formula), x.defs + y.defs, y.next);
    case Forall(v, b) => RenameSize(b, threshold, n);
    case Exists(v, b) => RenameSize(b, threshold, n);
    case Iff(a, b) =>
      var x := Rename(a, threshold, n);
      var y := Rename(b, threshold, x.next);
      RenameSize(a, threshold, n);
      RenameSize(b, threshold, x.next);
      IffRenameSize(x, y, threshold);
    case _ => assert Rename(f, threshold, n) == Renamed(f, [], n);
  }

  lemma IffRenameSize(x: Renamed, y: Renamed, threshold: nat)
    ensures var p := Side(x.formula, y.formula, threshold, y.next);
      var q := Side(y.formula, x.formula, threshold, p.next);
      var defs := x.defs + y.defs + p.defs + q.defs;
      && Size(p.formula) + Size(q.formula) + RhsSize(defs) - |defs|
        == Size(x.formula) + Size(y.formula) + RhsSize(x.defs) + RhsSize(y.defs) - |x.defs| - |y.defs|
      && |defs| <= |x.defs| + |y.defs| + 2
  {
    var p := Side(x.formula, y.formula, threshold, y.next);
    var q := Side(y.formula, x.formula, threshold, p.next);
    SideSize(x.formula, y.formula, threshold, y.next);
    SideSize(y.formula, x.formula, threshold, p.next);
    RhsSizes(x.defs, y.defs, p.defs, q.defs);
  }

  lemma RhsSizes(a: seq<IffDef>, b: seq<IffDef>, c: seq<IffDef>, d: seq<IffDef>)
    ensures RhsSize(a + b + c + d) == RhsSize(a) + RhsSize(b) + RhsSize(c) + RhsSize(d)
  {
    RhsSizeConcat(a, b);
    RhsSizeConcat(a + b, c);
    RhsSizeConcat(a + b + c, d);
  }

  lemma {:induction false} RenameAllSize(fs: seq<Formula>, threshold: nat, n: SymbolId)
    ensures var r := RenameAll(fs, threshold, n);
      Sizes(r.formulas) + RhsSize(r.defs) == Sizes(fs) + |r.defs| && |r.defs| <= 2 * IffCounts(fs)
    decreases fs, 1
  {
    if fs != [] {
      var x := Rename(fs[0], threshold, n);
      RenameSize(fs[0], threshold, n);
      RenameAllSize(fs[1..], threshold, x.next);
      RhsSizeConcat(x.defs, RenameAll(fs[1..], threshold, x.next).defs);
    }
  }

  lemma {:induction false} IffCountBound(f: Formula)
    ensures 2 * IffCount(f) < Size(f)
    decreases f, 0
  {
    match f
    case Neg(g) => IffCountBound(g);
    case And(fs) => IffCountsBound(fs);
    case Or(fs) => IffCountsBound(fs);
    case Implies(a, b) => IffCountBound(a); IffCountBound(b);
    case Iff(a, b) => IffCountBound(a); IffCountBound(b);
    case Forall(_, b) => IffCountBound(b);
    case Exists(_, b) => IffCountBound(b);
    case _ =>
  }

  lemma {:induction false} IffCountsBound(fs: seq<Formula>)
    ensures 2 * IffCounts(fs) <= Sizes(fs)
    decreases fs, 1
  {
    if fs != [] { IffCountBound(fs[0]); IffCountsBound(fs[1..]); }
  }

  /** NNF at most doubles an equivalence-free formula, and quadruples a flat one. */
  lemma {:induction false} NnfSize(f: Formula, neg: bool, k: nat)
    requires (k == 2 && !HasIff(f)) || (k == 4 && IffFlat(f))
    ensures Size(Nnf(f, neg)) <= k * Size(f)
    decreases f, 0
  {
    match f
    case Neg(g) => NnfSize(g, !neg, k);
    case And(fs) => NnfAllSize(fs, neg, k); MkSize(NnfAll(fs, neg));
    case Or(fs) => NnfAllSize(fs, neg, k); MkSize(NnfAll(fs, neg));
    case Implies(a, b) =>
      NnfSize(a, !neg, k); NnfSize(b, neg, k);
      PairSize(Nnf(a, !neg), Nnf(b, neg));
    case Iff(a, b) =>
      NnfSize(a, !neg, 2); NnfSize(b, false, 2); NnfSize(a, neg, 2); NnfSize(b, true, 2);
      NnfIffSize(a, b, neg);
    case Forall(_, b) => NnfSize(b, neg, k);
    case Exists(_, b) => NnfSize(b, neg, k);
    case _ =>
  }

  lemma NnfIffSize(a: Formula, b: Formula, neg: bool)
    ensures Size(Nnf(Iff(a, b), neg)) ==
      3 + Size(Nnf(a, !neg)) + Size(Nnf(b, false)) + Size(Nnf(a, neg)) + Size(Nnf(b, true))
  {
    PairSize(Nnf(a, !neg), Nnf(b, false));
    PairSize(Nnf(a, neg), Nnf(b, true));
    PairSize(MkOr([Nnf(a, !neg), Nnf(b, false)]), MkOr([Nnf(a, neg), Nnf(b, true)]));
  }

  lemma {:induction false} NnfAllSize(fs: seq<Formula>, neg: bool, k: nat)
    requires (k == 2 && !HasIff(And(fs))) || (k == 4 && IffFlat(And(fs)))
    ensures Sizes(NnfAll(fs, neg)) <= k * Sizes(fs)
    decreases fs, 1
  {
    if fs != [] {
      NnfSize(fs[0], neg, k);
      NnfAllSize(fs[1..], neg, k);
      assert NnfAll(fs, neg)[1..] == NnfAll(fs[1..], neg);
    }
  }

  /** Total NNF size of the definitions as the pipeline clausifies them, universally closed. */
  function DefsNnfSize(defs: seq<IffDef>): nat {
    if defs == [] then 0 else Size(ToNnf(ClosedDefinition(defs[0]))) + DefsNnfSize(defs[1..])
  }

  /** The number of closing quantifiers: one for each parameter of each definition. */
  function Parameters(defs: seq<IffDef>): nat {
    if defs == [] then 0 else |defs[0].vars| + Parameters(defs[1..])
  }

  lemma {:induction false} CloseSize(vars: seq<VarId>, f: Formula)
    ensures Size(ToNnf(Close(vars, f))) == |vars| + Size(ToNnf(f))
  {
    if vars != [] { CloseSize(vars[1..], f); }
  }

  lemma DefinitionVars(d: IffDef)
    requires d.vars == Sorted(FreeVars(d.rhs))
    ensures FreeVars(d.Biconditional()) == FreeVars(d.rhs)
    ensures ClosedDefinition(d) == Close(d.vars, d.Biconditional())
  {
    assert d == DefFor(d.rhs, d.sym);
    HeadShape(d.rhs, d.sym);
  }

  lemma DefNnfBound(d: IffDef)
    requires IffFlat(d.rhs) && d.vars == Sorted(FreeVars(d.rhs))
    ensures Size(ToNnf(ClosedDefinition(d))) <= 6 + 8 * Size(d.rhs) + |d.vars|
  {
    DefinitionVars(d);
    CloseSize(d.vars, d.Biconditional());
    NnfIffSize(d.Head(), d.rhs, false);
    NnfSize(d.rhs, false, 4);
    NnfSize(d.rhs, true, 4);
  }

  lemma {:induction false} DefsNnfBound(defs: seq<IffDef>, f: Formula)
    requires DefsKept(defs, f)
    ensures DefsNnfSize(defs) <= 6 * |defs| + 8 * RhsSize(defs) + Parameters(defs)
  {
    if defs != [] {
      assert DefKept(defs[0], f);
      DefNnfBound(defs[0]);
      DefsNnfBound(defs[1..], f);
    }
  }

  lemma ParametersKept(defs: seq<IffDef>, f: Formula)
    requires DefsKept(defs, f)
    ensures forall i :: 0 <= i < |defs| ==> |defs[i].vars| <= |FreeVars(f) + BoundVars(f)|
  {
    forall i | 0 <= i < |defs| ensures |defs[i].vars| <= |FreeVars(f) + BoundVars(f)| {
      assert DefKept(defs[i], f);
      SortedLength(FreeVars(defs[i].rhs));
      SubsetSize(FreeVars(defs[i].rhs), FreeVars(f) + BoundVars(f));
    }
  }

  lemma {:induction false} ParametersBound(defs: seq<IffDef>, k: nat)
    requires forall i :: 0 <= i < |defs| ==> |defs[i].vars| <= k
    ensures Parameters(defs) <= |defs| * k
  {
    if defs != [] {
      ParametersBound(defs[1..], k);
      assert |defs| * k == k + |defs[1..]| * k;
    }
  }

  lemma {:induction false} SortedLength(xs: set<VarId>)
    ensures |Sorted(xs)| == |xs|
    decreases xs
  {
    if xs != {} { SortedLength(xs - {Min(xs)}); }
  }

  /** After renaming, the NNF of the formula and of all closed definitions together is linear in
      the input, apart from the closing quantifiers: at most one for each pair of an equivalence
      side and a variable. */
  lemma RenameLinear(f: Formula, threshold: nat, n: SymbolId)
    ensures var r := Rename(f, threshold, n);
      && Size(ToNnf(r.formula)) + DefsNnfSize(r.defs) <= 22 * Size(f) + Parameters(r.defs)
      && Parameters(r.defs) <= 2 * IffCount(f) * |FreeVars(f) + BoundVars(f)|
  {
    var r := Rename(f, threshold, n);
    RenameKeeps(f, threshold, n);
    RenameSize(f, threshold, n);
    IffCountBound(f);
    NnfSize(r.formula, false, 4);
    DefsNnfBound(r.defs, f);
    ParametersKept(r.defs, f);
    ParametersBound(r.defs, |FreeVars(f) + BoundVars(f)|);
    ProductMono(|r.defs|, 2 * IffCount(f), |FreeVars(f) + BoundVars(f)|);
  }

  lemma ProductMono(a: nat, b: nat, k: nat)
    requires a <= b
    ensures a * k <= b * k
  {
  }

  // ----- which equivalences are left alone

  /** Both sides are literals, or one is and the other has neither equivalences nor quantifiers, and
      distribution stays within the threshold. */
  predicate SmallIff(a: Formula, b: Formula, threshold: nat) {
    || (IsLiteral(a) && IsLiteral(b))
    || (&& IsLiteral(a) != IsLiteral(b)
        && !HasIff(a) && !HasIff(b) && QuantifierFree(a) && QuantifierFree(b)
        && Sat(Count(Iff(a, b), false)) <= threshold)
  }

  /** Every equivalence in `f` is small. */
  predicate Quiet(f: Formula, threshold: nat) {
    match f
    case Iff(a, b) => Quiet(a, threshold) && Quiet(b, threshold) && SmallIff(a, b, threshold)
    case Neg(g) => Quiet(g, threshold)
    case And(fs) => forall i :: 0 <= i < |fs| ==> Quiet(fs[i], threshold)
    case Or(fs) => forall i :: 0 <= i < |fs| ==> Quiet(fs[i], threshold)
    case Implies(a, b) => Quiet(a, threshold) && Quiet(b, threshold)
    case Forall(_, b) => Quiet(b, threshold)
    case Exists(_, b) => Quiet(b, threshold)
    case _ => true
  }

  lemma TimesCommute(a: nat, b: nat)
    ensures Times(a, b) == Times(b, a)
  {
  }

  lemma LiteralPlain(f: Formula)
    requires IsLiteral(f)
    ensures !HasIff(f) && QuantifierFree(f)
  {
  }

  lemma NamingExact(a: Formula, b: Formula, threshold: nat)
    ensures NeedsNaming(a, b, threshold) || NeedsNaming(b, a, threshold) <==> !SmallIff(a, b, threshold)
    ensures NeedsNaming(a, b, threshold) ==> NeedsNaming(b, a, threshold) || IsLiteral(b)
    ensures NeedsNaming(b, a, threshold) ==> NeedsNaming(a, b, threshold) || IsLiteral(a)
  {
    EstimateIsCount(Iff(a, b), false);
    EstimateIsCount(Iff(b, a), false);
    TimesCommute(Count(a, true), Count(b, false));
    TimesCommute(Count(a, false), Count(b, true));
    if IsLiteral(a) { LiteralPlain(a); }
    if IsLiteral(b) { LiteralPlain(b); }
  }

  ghost predicate QuietDefs(defs: seq<IffDef>, threshold: nat) {
    forall i :: 0 <= i < |defs| ==> Quiet(defs[i].rhs, threshold)
  }

  /** One symbol for each definition, none exactly when the input was quiet, and nothing left to name. */
  ghost predicate Drawn(r: Renamed, f: Formula, threshold: nat, n: SymbolId) {
    && r.next == n + |r.defs|
    && (r.defs == [] <==> Quiet(f, threshold))
    && (r.defs == [] ==> r.formula == f)
    && Quiet(r.formula, threshold) && QuietDefs(r.defs, threshold)
  }

  lemma IffDraws(a: Formula, b: Formula, threshold: nat, n: SymbolId, x: Renamed, y: Renamed)
    requires Drawn(x, a, threshold, n) && Drawn(y, b, threshold, x.next)
    requires x == Rename(a, threshold, n) && y == Rename(b, threshold, x.next)
    ensures Drawn(Rename(Iff(a, b), threshold, n), Iff(a, b), threshold, n)
  {
    var p := Side(x.formula, y.formula, threshold, y.next);
    var q := Side(y.formula, x.formula, threshold, p.next);
    NamingExact(x.formula, y.formula, threshold);
    var defs := x.defs + y.defs + p.defs + q.defs;
    assert Rename(Iff(a, b), threshold, n) == Renamed(Iff(p.formula, q.formula), defs, q.next);
    forall i | 0 <= i < |defs| ensures Quiet(defs[i].rhs, threshold) {
      assert defs[i] in x.defs || defs[i] in y.defs || defs[i] in p.defs || defs[i] in q.defs;
    }
  }

  /** Renaming draws one symbol for each definition, and none exactly when every equivalence is small;
      afterwards every equivalence is, in the formula and in the definitions. */
  lemma {:induction false} RenameExact(f: Formula, threshold: nat, n: SymbolId)
    ensures Drawn(Rename(f, threshold, n), f, threshold, n)
    decreases f, 0
  {
    match f
    case Neg(g) => RenameExact(g, threshold, n);
    case And(fs) => RenameAllExact(fs, threshold, n);
    case Or(fs) => RenameAllExact(fs, threshold, n);
    case Implies(a, b) =>
      RenameExact(a, threshold, n);
      RenameExact(b, threshold, Rename(a, threshold, n).next);
    case Forall(_, b) => RenameExact(b, threshold, n);
    case Exists(_, b) => RenameExact(b, threshold, n);
    case Iff(a, b) =>
      RenameExact(a, threshold, n);
      RenameExact(b, threshold, Rename(a, threshold, n).next);
      IffDraws(a, b, threshold, n, Rename(a, threshold, n), Rename(b, threshold, Rename(a, threshold, n).next));
    case _ =>
  }

  lemma {:induction false} RenameAllExact(fs: seq<Formula>, threshold: nat, n: SymbolId)
    ensures var r := RenameAll(fs, threshold, n);
      && r.next == n + |r.defs|
      && (r.defs == [] <==> forall i :: 0 <= i < |fs| ==> Quiet(fs[i], threshold))
      && (r.defs == [] ==> r.formulas == fs)
      && (forall i :: 0 <= i < |fs| ==> Quiet(r.formulas[i], threshold)) && QuietDefs(r.defs, threshold)
    decreases fs, 1
  {
    if fs != [] {
      RenameExact(fs[0], threshold, n);
      RenameAllExact(fs[1..], threshold, Rename(fs[0], threshold, n).next);
    }
  }

  function Pow2(k: nat): nat { if k == 0 then 1 else 2 * Pow2(k - 1) }

  /** The chain `((p <=> p) <=> p) <=> ...` with `k` equivalences. */
  function Chain(p: Atom, k: nat): Formula {
    if k == 0 then AtomF(p) else Iff(Chain(p, k - 1), AtomF(p))
  }

  /** Without renaming, NNF of a chain of `k` equivalences has more than `2^k` nodes although
      the chain itself has `2k + 1`. */
  lemma {:induction false} NnfExponential(p: Atom, k: nat, neg: bool)
    ensures Size(Chain(p, k)) == 2 * k + 1
    ensures Size(Nnf(Chain(p, k), neg)) >= Pow2(k)
  {
    if k > 0 {
      NnfExponential(p, k - 1, false);
      NnfExponential(p, k - 1, true);
      NnfIffSize(Chain(p, k - 1), AtomF(p), neg);
    }
  }

  /** Renaming is a conservative extension: definitions come in dependency order, every model
      extends to them, and where they are true the renamed formula is equivalent to the input. */
  lemma RenamingCorrect<D(!new, 00)>(f: Formula, threshold: nat, n: SymbolId)
    requires Distinct(f) && SymsBelow(f, n)
    ensures var r := Rename(f, threshold, n);
      && Ordered(r.defs, n, r.next)
      && IffFlat(r.formula) && (forall i :: 0 <= i < |r.defs| ==> IffFlat(r.defs[i].rhs))
      && (forall m: Structure<D> :: DefsTrue(m, r.defs) ==> Same(m, r.formula, f))
      && (forall m: Structure<D> :: DefsExtendable(m, n, r.defs))
  {
    var r := Rename(f, threshold, n);
    RenameShape(f, threshold, n);
    RenameKeeps(f, threshold, n);
    forall m: Structure<D> | DefsTrue(m, r.defs) ensures Same(m, r.formula, f) { RenameSame(m, f, threshold, n); }
    forall m: Structure<D> ensures DefsExtendable(m, n, r.defs) { var m2 := ExtendDefs(m, r.defs, n, r.next); }
  }

  ghost predicate DefsExtendable<D(!new)>(m: Structure<D>, n: SymbolId, defs: seq<IffDef>) {
    exists m2: Structure<D> :: AgreeBelow(m, m2, n) && DefsTrue(m2, defs)
  }

  // ----- the context that collects definitions

  class BicondCtx {
    var symbols: SymbolId
    var definitions: seq<IffDef>

    constructor (symbols: SymbolId)
      ensures this.symbols == symbols && definitions == []
    {
      this.symbols := symbols;
      definitions := [];
    }

    /** `introduce_definition`. */
    method IntroduceDefinition(f: Formula) returns (r: Formula)
      modifies this
      ensures symbols == old(symbols) + 1
      ensures definitions == old(definitions) + [DefFor(f, old(symbols))]
      ensures r == DefFor(f, old(symbols)).Head()
    {
      var freeVars := Sorted(FreeVars(f));
      var head := AtomF(Pred(symbols, VarTerms(freeVars)));
      definitions := definitions + [IffDef(symbols, freeVars, f)];
      symbols := symbols + 1;
      r := head;
    }

    method NameSide(f: Formula, other: Formula, threshold: nat) returns (r: Formula)
      modifies this
      ensures var n := Side(f, other, threshold, old(symbols));
        r == n.formula && symbols == n.next && definitions == old(definitions) + n.defs
    {
      if NeedsNaming(f, other, threshold) {
        r := IntroduceDefinition(f);
      } else {
        assert definitions + [] == definitions;
        r := f;
      }
    }

    /** `traverse`: definitions are pushed bottom up, hence in dependency order. */
    method Traverse(f: Formula, threshold: nat) returns (r: Formula)
      modifies this
      ensures var n := Rename(f, threshold, old(symbols));
        r == n.formula && symbols == n.next && definitions == old(definitions) + n.defs
      decreases f, 1
    {
      match f
      case Neg(g) => r := Traverse(g, threshold); r := Neg(r);
      case And(fs) => var gs := TraverseAll(fs, threshold); r := And(gs);
      case Or(fs) => var gs := TraverseAll(fs, threshold); r := Or(gs);
      case Implies(a, b) =>
        ghost var x := Rename(a, threshold, symbols);
        ConcatAssoc(definitions, x.defs, Rename(b, threshold, x.next).defs);
        var ra := Traverse(a, threshold);
        var rb := Traverse(b, threshold);
        r := Implies(ra, rb);
      case Forall(v, b) => r := Traverse(b, threshold); r := Forall(v, r);
      case Exists(v, b) => r := Traverse(b, threshold); r := Exists(v, r);
      case Iff(a, b) => r := TraverseIff(f, threshold);
      case _ =>
        assert definitions + [] == definitions;
        r := f;
    }

    method TraverseIff(f: Formula, threshold: nat) returns (r: Formula)
      requires f.Iff?
      modifies this
      ensures var n := Rename(f, threshold, old(symbols));
        r == n.formula && symbols == n.next && definitions == old(definitions) + n.defs
      decreases f, 0
    {
      ghost var x := Rename(f.lhs, threshold, symbols);
      ghost var y := Rename(f.rhs, threshold, x.next);
      ghost var p := Side(x.formula, y.formula, threshold, y.next);
      ghost var q := Side(y.formula, x.formula, threshold, p.next);
      ConcatAssoc(definitions, x.defs, y.defs);
      ConcatAssoc(definitions, x.defs + y.defs, p.defs);
      ConcatAssoc(definitions, x.defs + y.defs + p.defs, q.defs);
      var ra := Traverse(f.lhs, threshold);
      var rb := Traverse(f.rhs, threshold);
      var fa := NameSide(ra, rb, threshold);
      var fb := NameSide(rb, ra, threshold);
      r := Iff(fa, fb);
    }

    method TraverseAll(fs: seq<Formula>, threshold: nat) returns (gs: seq<Formula>)
      modifies this
      ensures var n := RenameAll(fs, threshold, old(symbols));
        gs == n.formulas && symbols == n.next && definitions == old(definitions) + n.defs
      decreases fs, 0
    {
      gs := [];
      ghost var all, pushed := RenameAll(fs, threshold, symbols), [];
      assert fs[0..] == fs;
      for i := 0 to |fs|
        invariant definitions == old(definitions) + pushed
        invariant all == Joined(gs, pushed, RenameAll(fs[i..], threshold, symbols))
      {
        assert fs[i..][1..] == fs[i + 1..];
        ghost var x := Rename(fs[i], threshold, symbols);
        JoinedStep(gs, pushed, x, RenameAll(fs[i + 1..], threshold, x.next));
        var g := Traverse(fs[i], threshold);
        gs, pushed := gs + [g], pushed + x.defs;
      }
      assert fs[|fs|..] == [] && gs + [] == gs && pushed + [] == pushed;
    }
  }

  function Joined(gs: seq<Formula>, defs: seq<IffDef>, r: RenamedAll): RenamedAll {
    RenamedAll(gs + r.formulas, defs + r.defs, r.next)
  }

  lemma JoinedStep(gs: seq<Formula>, defs: seq<IffDef>, x: Renamed, y: RenamedAll)
    ensures Joined(gs, defs, RenamedAll([x.formula] + y.formulas, x.defs + y.defs, y.next)) ==
      Joined(gs + [x.formula], defs + x.defs, y)
  {
    assert gs + ([x.formula] + y.formulas) == gs + [x.formula] + y.formulas;
    assert defs + (x.defs + y.defs) == defs + x.defs + y.defs;
  }

}
