/** How many clauses the choice between definitional and distributive CNF can return. */
module CnfBound {
  import opened Wrappers
  import opened Fol
  import opened Substitution
  import opened Skolemization
  import opened Stripping
  import opened Distribution
  import opened ClauseCount
  import opened Tseitin

  function Power(b: nat, k: nat): nat { if k == 0 then 1 else Times(b, Power(b, k - 1)) }

  /** How many disjunctions a disjunct multiplies when no conjunction below it is named. */
  function Spread(f: Formula): nat {
    match f
    case Or(fs) => Max(1, SpreadSum(fs))
    case And(fs) => if |fs| == 1 then Spread(fs[0]) else 0
    case Forall(_, b) => Spread(b)
    case Exists(_, b) => Spread(b)
    case _ => 0
  }

  function SpreadSum(fs: seq<Formula>): nat {
    if fs == [] then 0 else Spread(fs[0]) + SpreadSum(fs[1..])
  }

  /** The largest spread of a disjunction anywhere in `f`; at most 1 when no disjunction has two
      disjunctions among its parts. */
  function Width(f: Formula): nat {
    match f
    case Or(fs) => Max(Spread(f), Widths(fs))
    case And(fs) => Widths(fs)
    case Forall(_, b) => Width(b)
    case Exists(_, b) => Width(b)
    case _ => 0
  }

  function Widths(fs: seq<Formula>): nat {
    if fs == [] then 0 else Max(Width(fs[0]), Widths(fs[1..]))
  }

  lemma MulMonoBoth(a: nat, b: nat, c: nat, d: nat)
    requires a <= c && b <= d
    ensures a * b <= c * d
  {
    MulMono(a, c, b);
    MulMono(b, d, c);
  }

  lemma {:induction false} PowerAdd(b: nat, i: nat, j: nat)
    ensures Power(b, i) * Power(b, j) == Power(b, i + j)
  {
    if i > 0 {
      PowerAdd(b, i - 1, j);
      MulAssoc(b, Power(b, i - 1), Power(b, j));
    }
  }

  lemma {:induction false} PowerMono(b: nat, i: nat, j: nat)
    requires b >= 1 && i <= j
    ensures 1 <= Power(b, i) <= Power(b, j)
  {
    if i < j {
      PowerMono(b, i, j - 1);
      MulMonoBoth(1, Power(b, j - 1), b, Power(b, j - 1));
    } else if i > 0 {
      PowerMono(b, i - 1, i - 1);
      MulMonoBoth(1, 1, b, Power(b, i - 1));
    }
  }

  lemma {:induction false} PowerOne(k: nat)
    ensures Power(1, k) == 1
  {
    if k > 0 { PowerOne(k - 1); }
  }

  // ----- the clauses of the definitions

  /** The clauses the definitions stand for, before they are distributed. */
  function DefCount(defs: seq<Definition>): nat {
    if defs == [] then 0 else Sum(defs[0].conjuncts, false) + DefCount(defs[1..])
  }

  lemma {:induction false} DefCountSplit(p: seq<Definition>, q: seq<Definition>)
    ensures DefCount(p + q) == DefCount(p) + DefCount(q)
  {
    if p == [] { assert p + q == q; } else { assert (p + q)[1..] == p[1..] + q; DefCountSplit(p[1..], q); }
  }

  lemma {:induction false} FlattenConjunctsCount(fs: seq<Formula>)
    ensures Sum(FlattenConjuncts(fs), false) == Sum(fs, false)
  {
    if fs != [] {
      var p := if fs[0].And? then FlattenConjuncts(fs[0].parts) else [fs[0]];
      if fs[0].And? { FlattenConjunctsCount(fs[0].parts); } else { SumOne(p, fs[0], false); }
      FlattenConjunctsCount(fs[1..]);
      SumSplit(p, FlattenConjuncts(fs[1..]));
    }
  }

  lemma ToCnfConjuncts(f: Formula, n: SymbolId)
    requires IsMatrix(f) && SymsBelow(f, n)
    ensures Conjuncts(ToCnf(f)) == Count(f, false)
  {
    FlattenMatrix(f, n);
    DistributeConjuncts(Flatten(f), n);
    FlattenCount(f);
  }

  lemma DefinitionClausesCount(d: Definition, n: SymbolId)
    requires d.sym < n && AllMatrix(d.conjuncts, d.sym)
    ensures |DefinitionClauses(d)| == Sum(d.conjuncts, false)
  {
    var gs := seq(|d.conjuncts|, i requires 0 <= i < |d.conjuncts| => ToCnf(MkOr([Neg(d.Head()), d.conjuncts[i]])));
    forall i | 0 <= i < |gs| ensures Conjuncts(gs[i]) == Count(d.conjuncts[i], false) {
      SymsMono(d.conjuncts[i], d.sym, n);
      ToCnfConjuncts(MkOr([Neg(d.Head()), d.conjuncts[i]]), n);
      CountPair(Neg(d.Head()), d.conjuncts[i]);
    }
    ConcatConjuncts(gs);
    SumConjuncts(gs, d.conjuncts);
  }

  lemma {:induction false} AllDefinitionClausesCount(defs: seq<Definition>, n: SymbolId, k: SymbolId)
    requires DefsBetween(defs, n, k)
    ensures |AllDefinitionClauses(defs)| == DefCount(defs)
  {
    if defs != [] {
      DefinitionClausesCount(defs[0], k);
      AllDefinitionClausesCount(defs[1..], n, k);
    }
  }

  lemma MkAndConjuncts(cs: seq<Formula>, g: Formula)
    requires IsCnf(g) && forall i :: 0 <= i < |cs| ==> IsClause(cs[i])
    ensures Conjuncts(MkAnd(cs + AndParts(g))) == |cs| + Conjuncts(g)
  {
    var all := cs + AndParts(g);
    if |all| == 1 { assert !all[0].And?; }
  }

  /** One clause for each clause of the named formula and of each definition, no more. */
  lemma DefinitionalConjuncts(f: Formula, threshold: nat, n: SymbolId)
    requires IsMatrix(f) && SymsBelow(f, n)
    ensures var r := Name(f, threshold, n);
      Conjuncts(ToCnfDefinitional(f, threshold, n).formula) == Count(r.formula, false) + DefCount(r.defs)
  {
    var r := Name(f, threshold, n);
    NameShape(f, threshold, n);
    AllDefinitionClausesShape(r.defs, n, r.next);
    AllDefinitionClausesCount(r.defs, n, r.next);
    ToCnfShape(r.formula, r.next);
    ToCnfConjuncts(r.formula, r.next);
    MkAndConjuncts(AllDefinitionClauses(r.defs), ToCnf(r.formula));
  }

  // ----- naming keeps the number of clauses small

  /** Few enough clauses, or no conjunction to name. */
  predicate Spared(fs: seq<Formula>, threshold: nat) {
    (forall i :: 0 <= i < |fs| ==> !fs[i].And?) || (threshold > 1 && Sat(Product(fs, false)) <= threshold)
  }

  lemma NameOrKept(fs: seq<Formula>, threshold: nat, n: SymbolId)
    ensures var r := NameAll(fs, threshold, n);
      var q := NameConjunctions(r.formulas, r.next);
      Name(Or(fs), threshold, n) ==
        if Spared(r.formulas, threshold) then Named(Or(r.formulas), r.defs, r.next)
        else Named(Or(q.formulas), r.defs + q.defs, q.next)
  {
    ProductEstimate(NameAll(fs, threshold, n).formulas);
  }

  lemma ProductEstimate(gs: seq<Formula>)
    ensures EstimateProduct(gs, false, 1) == Sat(Product(gs, false))
  {
    EstimateProductIs(gs, false, 1);
    assert Sat(1) == 1 && 1 * Product(gs, false) == Product(gs, false);
  }

  /** The product once every conjunction is named: a name is one literal. */
  function Residual(fs: seq<Formula>): nat {
    if fs == [] then 1 else Times(if fs[0].And? then 1 else Count(fs[0], false), Residual(fs[1..]))
  }

  lemma {:induction false} ResidualNoAnd(fs: seq<Formula>)
    requires forall i :: 0 <= i < |fs| ==> !fs[i].And?
    ensures Residual(fs) == Product(fs, false)
  {
    if fs != [] { ResidualNoAnd(fs[1..]); }
  }

  lemma {:induction false} NameConjunctionsCount(fs: seq<Formula>, n: SymbolId)
    ensures var q := NameConjunctions(fs, n);
      && Product(q.formulas, false) == Residual(fs)
      && DefCount(q.defs) <= Sum(fs, false)
  {
    if fs != [] {
      var k := if fs[0].And? then n + 1 else n;
      NameConjunctionsCount(fs[1..], k);
      var y := NameConjunctions(fs[1..], k);
      if fs[0].And? {
        var d := Introduce(fs[0].parts, n);
        FlattenConjunctsCount(fs[0].parts);
        assert ([d.Head()] + y.formulas)[1..] == y.formulas && ([d] + y.defs)[1..] == y.defs;
      } else {
        assert ([fs[0]] + y.formulas)[1..] == y.formulas;
      }
    }
  }

  lemma Within(p: nat, a: nat, b: nat, c: nat, x: nat, y: nat)
    requires x <= Times(p, a) && y <= Times(p, b) && c == a + b
    ensures x + y <= Times(p, c)
  {
  }

  /** The clauses of a formula named into `r`: the formula and the definitions stay within `p` for
      each node, and a disjunction by itself within the power of its spread. */
  ghost predicate Bounded(r: Named, f: Formula, t: nat, w: nat) {
    && Count(r.formula, false) + DefCount(r.defs) <= Times(Power(t, w), Size(f))
    && (!f.And? ==> Count(r.formula, false) <= Power(t, Spread(f)))
    && (r.formula.And? <==> f.And?)
  }

  ghost predicate BoundedAll(r: NamedAll, fs: seq<Formula>, t: nat, w: nat) {
    && |r.formulas| == |fs|
    && Sum(r.formulas, false) + DefCount(r.defs) <= Times(Power(t, w), Sizes(fs))
    && Residual(r.formulas) <= Power(t, SpreadSum(fs))
    && (forall i :: 0 <= i < |fs| ==> (r.formulas[i].And? <==> fs[i].And?))
  }

  /** Every disjunction is cut down to a power of the threshold, and the clauses of the named
      formula and of its definitions together stay within that factor of the size. */
  lemma {:induction false} NameCount(f: Formula, threshold: nat, n: SymbolId, w: nat)
    requires IsMatrix(f) && Width(f) <= w && threshold < USIZE_MAX
    ensures Bounded(Name(f, threshold, n), f, Max(1, threshold), w)
    decreases f, 0
  {
    match f
    case And(fs) => NameAllCount(fs, threshold, n, w); NameAndCount(fs, threshold, n, w);
    case Or(fs) => NameAllCount(fs, threshold, n, w); NameOrCount(fs, threshold, n, w);
    case _ => LiteralCount(f, threshold, n, w);
  }

  lemma LiteralCount(f: Formula, threshold: nat, n: SymbolId, w: nat)
    requires IsMatrix(f) && !f.And? && !f.Or?
    ensures Bounded(Name(f, threshold, n), f, Max(1, threshold), w)
  {
    var t := Max(1, threshold);
    PowerMono(t, 0, w);
    PowerMono(t, 0, Spread(f));
    MulMonoBoth(1, 1, Power(t, w), Size(f));
    assert Name(f, threshold, n) == Named(f, [], n) && Count(f, false) == 1;
  }

  lemma NameAndCount(fs: seq<Formula>, threshold: nat, n: SymbolId, w: nat)
    requires BoundedAll(NameAll(fs, threshold, n), fs, Max(1, threshold), w)
    ensures Bounded(Name(And(fs), threshold, n), And(fs), Max(1, threshold), w)
  {
    MulMonoBoth(Power(Max(1, threshold), w), Sizes(fs), Power(Max(1, threshold), w), 1 + Sizes(fs));
  }

  lemma NameOrCount(fs: seq<Formula>, threshold: nat, n: SymbolId, w: nat)
    requires Width(Or(fs)) <= w && threshold < USIZE_MAX
    requires BoundedAll(NameAll(fs, threshold, n), fs, Max(1, threshold), w)
    ensures Bounded(Name(Or(fs), threshold, n), Or(fs), Max(1, threshold), w)
  {
    var f, t := Or(fs), Max(1, threshold);
    var r := NameAll(fs, threshold, n);
    var q := NameConjunctions(r.formulas, r.next);
    NameOrKept(fs, threshold, n);
    NameConjunctionsCount(r.formulas, r.next);
    DefCountSplit(r.defs, q.defs);
    PowerMono(t, SpreadSum(fs), Spread(f));
    PowerMono(t, Spread(f), w);
    if Spared(r.formulas, threshold) { SparedCount(r.formulas, threshold, Spread(f), SpreadSum(fs)); }
    Within(Power(t, w), 1, Sizes(fs), Size(f), Power(t, w), Sum(r.formulas, false) + DefCount(r.defs));
  }

  lemma SparedCount(gs: seq<Formula>, threshold: nat, k: nat, sum: nat)
    requires Spared(gs, threshold) && threshold < USIZE_MAX && k >= 1 && k >= sum
    requires Residual(gs) <= Power(Max(1, threshold), sum)
    ensures Product(gs, false) <= Power(Max(1, threshold), k)
  {
    var t := Max(1, threshold);
    PowerMono(t, 1, k);
    PowerMono(t, sum, k);
    assert Power(t, 1) == t;
    if forall i :: 0 <= i < |gs| ==> !gs[i].And? { ResidualNoAnd(gs); }
  }

  lemma {:induction false} NameAllCount(fs: seq<Formula>, threshold: nat, n: SymbolId, w: nat)
    requires (forall i :: 0 <= i < |fs| ==> IsMatrix(fs[i])) && Widths(fs) <= w && threshold < USIZE_MAX
    ensures BoundedAll(NameAll(fs, threshold, n), fs, Max(1, threshold), w)
    decreases fs, 1
  {
    if fs != [] {
      var x := Name(fs[0], threshold, n);
      NameCount(fs[0], threshold, n, w);
      NameAllCount(fs[1..], threshold, x.next, w);
      BoundedCons(x, NameAll(fs[1..], threshold, x.next), fs, Max(1, threshold), w);
    }
  }

  lemma BoundedCons(x: Named, y: NamedAll, fs: seq<Formula>, t: nat, w: nat)
    requires fs != [] && t >= 1 && Bounded(x, fs[0], t, w) && BoundedAll(y, fs[1..], t, w)
    ensures BoundedAll(NamedAll([x.formula] + y.formulas, x.defs + y.defs, y.next), fs, t, w)
  {
    var gs := [x.formula] + y.formulas;
    assert gs[1..] == y.formulas;
    DefCountSplit(x.defs, y.defs);
    Within(Power(t, w), Size(fs[0]), Sizes(fs[1..]), Sizes(fs),
      Count(x.formula, false) + DefCount(x.defs), Sum(y.formulas, false) + DefCount(y.defs));
    PowerMono(t, 0, Spread(fs[0]));
    PowerAdd(t, Spread(fs[0]), SpreadSum(fs[1..]));
    MulMonoBoth(if x.formula.And? then 1 else Count(x.formula, false), Residual(y.formulas),
      Power(t, Spread(fs[0])), Power(t, SpreadSum(fs[1..])));
    forall i | 0 <= i < |fs| ensures gs[i].And? <==> fs[i].And? { if i > 0 { assert fs[i] == fs[1..][i - 1]; } }
  }

  // ----- when a symbol is drawn

  /** No disjunction has both a conjunction among its parts and more clauses than the threshold. */
  predicate Calm(f: Formula, threshold: nat) {
    match f
    case And(fs) => forall i :: 0 <= i < |fs| ==> Calm(fs[i], threshold)
    case Or(fs) =>
      && (forall i :: 0 <= i < |fs| ==> Calm(fs[i], threshold))
      && ((forall i :: 0 <= i < |fs| ==> !fs[i].And?) || (threshold > 1 && Sat(Count(f, false)) <= threshold))
    case _ => true
  }

  lemma {:induction false} NameConjunctionsDraws(fs: seq<Formula>, n: SymbolId)
    ensures var q := NameConjunctions(fs, n);
      && (q.defs == [] <==> forall i :: 0 <= i < |fs| ==> !fs[i].And?)
      && q.next == n + |q.defs|
  {
    if fs != [] {
      NameConjunctionsDraws(fs[1..], if fs[0].And? then n + 1 else n);
      if !fs[0].And? { forall i | 0 <= i < |fs| && fs[i].And? ensures fs[1..][i - 1].And? {} }
    }
  }

  /** Naming draws one symbol for each definition, and none exactly when the formula is calm;
      it is then returned as it is. */
  lemma {:induction false} NameDraws(f: Formula, threshold: nat, n: SymbolId)
    ensures var r := Name(f, threshold, n);
      && r.next == n + |r.defs|
      && (r.defs == [] <==> Calm(f, threshold))
      && (Calm(f, threshold) ==> r.formula == f)
    decreases f, 0
  {
    match f
    case And(fs) => NameAllDraws(fs, threshold, n);
    case Or(fs) => NameAllDraws(fs, threshold, n); NameOrDraws(fs, threshold, n);
    case _ =>
  }

  lemma NameOrDraws(fs: seq<Formula>, threshold: nat, n: SymbolId)
    requires AllDraw(NameAll(fs, threshold, n), fs, threshold, n)
    ensures var r := Name(Or(fs), threshold, n);
      && r.next == n + |r.defs|
      && (r.defs == [] <==> Calm(Or(fs), threshold))
      && (Calm(Or(fs), threshold) ==> r.formula == Or(fs))
  {
    var r := NameAll(fs, threshold, n);
    NameConjunctionsDraws(r.formulas, r.next);
    NameOrKept(fs, threshold, n);
  }

  ghost predicate AllDraw(r: NamedAll, fs: seq<Formula>, threshold: nat, n: SymbolId) {
    && r.next == n + |r.defs|
    && (r.defs == [] <==> forall i :: 0 <= i < |fs| ==> Calm(fs[i], threshold))
    && (r.defs == [] ==> r.formulas == fs)
  }

  lemma {:induction false} NameAllDraws(fs: seq<Formula>, threshold: nat, n: SymbolId)
    ensures AllDraw(NameAll(fs, threshold, n), fs, threshold, n)
    decreases fs, 1
  {
    if fs != [] {
      NameDraws(fs[0], threshold, n);
      NameAllDraws(fs[1..], threshold, Name(fs[0], threshold, n).next);
    }
  }

  // ----- a family that stays below the threshold everywhere and still explodes

  function Copies(g: Formula, k: nat): seq<Formula> { if k == 0 then [] else [g] + Copies(g, k - 1) }

  /** A disjunction of three conjunctions of two atoms: eight clauses. */
  function Eight(p: Atom): Formula { Or(Copies(And(Copies(AtomF(p), 2)), 3)) }

  function Wide(p: Atom, k: nat): Formula { Or(Copies(Eight(p), k)) }

  lemma {:induction false} CopiesAt(g: Formula, k: nat)
    ensures |Copies(g, k)| == k && forall i :: 0 <= i < k ==> Copies(g, k)[i] == g
  {
    if k > 0 { CopiesAt(g, k - 1); }
  }

  lemma {:induction false} CopiesCount(g: Formula, k: nat)
    ensures Product(Copies(g, k), false) == Power(Count(g, false), k)
  {
    if k > 0 { CopiesCount(g, k - 1); assert Copies(g, k)[1..] == Copies(g, k - 1); }
  }

  lemma {:induction false} CopiesSize(g: Formula, k: nat)
    requires Size(g) == 10
    ensures Sizes(Copies(g, k)) == 10 * k
  {
    if k > 0 { CopiesSize(g, k - 1); assert Copies(g, k)[1..] == Copies(g, k - 1); }
  }

  lemma FewSizes(g: Formula)
    ensures Sizes(Copies(g, 2)) == 2 * Size(g) && Sizes(Copies(g, 3)) == 3 * Size(g)
  {
    assert Copies(g, 0) == [] && Copies(g, 1)[1..] == Copies(g, 0);
    assert Sizes(Copies(g, 1)) == Size(g);
    assert Copies(g, 2)[1..] == Copies(g, 1) && Copies(g, 3)[1..] == Copies(g, 2);
  }

  lemma {:induction false} CopiesWidth(g: Formula, k: nat)
    requires Spread(g) <= 1
    ensures SpreadSum(Copies(g, k)) == if Spread(g) == 0 then 0 else k
    ensures Widths(Copies(g, k)) == if k == 0 then 0 else Width(g)
  {
    if k > 0 { CopiesWidth(g, k - 1); assert Copies(g, k)[1..] == Copies(g, k - 1); }
  }

  lemma EightShape(p: Atom)
    ensures IsMatrix(Eight(p)) && Calm(Eight(p), 8) && Size(Eight(p)) == 10 && Count(Eight(p), false) == 8
    ensures Spread(Eight(p)) == 1 == Width(Eight(p))
  {
    var two := Copies(AtomF(p), 2);
    CopiesAt(AtomF(p), 2);
    SumTwo(two, AtomF(p), AtomF(p), false);
    FewSizes(AtomF(p));
    CopiesWidth(AtomF(p), 2);
    CopiesAt(And(two), 3);
    CopiesCount(And(two), 3);
    FewSizes(And(two));
    CopiesWidth(And(two), 3);
    assert Power(2, 3) == 8;
  }

  lemma EightBelow(p: Atom, n: SymbolId)
    requires AtomSymsBelow(p, n)
    ensures SymsBelow(Eight(p), n)
  {
    CopiesAt(AtomF(p), 2);
    CopiesAt(And(Copies(AtomF(p), 2)), 3);
  }

  lemma WideShape(p: Atom, k: nat)
    ensures Size(Wide(p, k)) == 1 + 10 * k && Count(Wide(p, k), false) == Power(8, k)
    ensures IsMatrix(Wide(p, k)) && Calm(Wide(p, k), 8) && Width(Wide(p, k)) == Max(1, k)
  {
    EightShape(p);
    CopiesAt(Eight(p), k);
    CopiesCount(Eight(p), k);
    CopiesSize(Eight(p), k);
    CopiesWidth(Eight(p), k);
  }

  // ----- Skolemization and stripping keep the bound

  ghost predicate Fits(g: Formula, f: Formula) {
    Spread(g) <= Spread(f) && Width(g) <= Width(f) && Size(g) <= Size(f)
  }

  ghost predicate FitsAll(gs: seq<Formula>, fs: seq<Formula>) {
    |gs| == |fs| && SpreadSum(gs) <= SpreadSum(fs) && Widths(gs) <= Widths(fs) && Sizes(gs) <= Sizes(fs)
  }

  lemma JunctionFits(gs: seq<Formula>, fs: seq<Formula>)
    requires FitsAll(gs, fs)
    ensures Fits(And(gs), And(fs)) && Fits(Or(gs), Or(fs)) && Fits(MkAnd(gs), And(fs)) && Fits(MkOr(gs), Or(fs))
  {
    if |gs| == 1 { assert gs[1..] == [] == fs[1..]; }
  }

  lemma {:induction false} RenameFits(f: Formula, x: VarId, y: VarId)
    ensures Spread(RenameVar(f, x, y)) == Spread(f) && Width(RenameVar(f, x, y)) == Width(f)
    decreases f, 0
  {
    match f
    case And(fs) => RenameAllFits(fs, x, y);
    case Or(fs) => RenameAllFits(fs, x, y);
    case Forall(_, b) => RenameFits(b, x, y);
    case Exists(_, b) => RenameFits(b, x, y);
    case _ =>
  }

  lemma {:induction false} RenameAllFits(fs: seq<Formula>, x: VarId, y: VarId)
    ensures var gs := RenameVars(fs, x, y);
      && |gs| == |fs| && SpreadSum(gs) == SpreadSum(fs) && Widths(gs) == Widths(fs)
      && (|fs| == 1 ==> Spread(gs[0]) == Spread(fs[0]))
    decreases fs, 1
  {
    if fs != [] { RenameFits(fs[0], x, y); RenameAllFits(fs[1..], x, y); }
  }

  lemma {:induction false} ApplyFits(v: VarId, s: Term, f: Formula, next: VarId)
    ensures Fits(Apply(v, s, f, next).0, f)
    decreases Size(f), 0
  {
    match f
    case And(fs) => ApplyAllFits(v, s, fs, next); JunctionFits(ApplyAll(v, s, fs, next).0, fs);
    case Or(fs) => ApplyAllFits(v, s, fs, next); JunctionFits(ApplyAll(v, s, fs, next).0, fs);
    case Forall(w, b) =>
      ApplyFits(v, s, b, next);
      RenameFits(b, w, next);
      ApplyFits(v, s, RenameVar(b, w, next), next + 1);
    case Exists(w, b) =>
      ApplyFits(v, s, b, next);
      RenameFits(b, w, next);
      ApplyFits(v, s, RenameVar(b, w, next), next + 1);
    case _ =>
  }

  lemma {:induction false} ApplyAllFits(v: VarId, s: Term, fs: seq<Formula>, next: VarId)
    ensures FitsAll(ApplyAll(v, s, fs, next).0, fs)
    decreases Sizes(fs), 1
  {
    if fs != [] {
      ApplyFits(v, s, fs[0], next);
      ApplyAllFits(v, s, fs[1..], Apply(v, s, fs[0], next).1);
    }
  }

  lemma {:induction false} SkolemFits(f: Formula, us: seq<VarId>, n: SymbolId)
    ensures Fits(Skolem(f, us, n).0, f)
    decreases Size(f), 0
  {
    match f
    case Forall(v, b) => SkolemFits(b, us + [v], n);
    case Exists(v, b) =>
      var s := SkolemTerm(us, b, n);
      ApplyFits(v, s, b, Max(Max(v, TermMaxVar(s)), MaxVar(b)) + 1);
      SkolemFits(ApplySingleton(v, s, b), us, n + 1);
    case Neg(g) => SkolemFits(g, us, n);
    case And(fs) => SkolemAllFits(fs, us, n); JunctionFits(SkolemAll(fs, us, n).0, fs);
    case Or(fs) => SkolemAllFits(fs, us, n); JunctionFits(SkolemAll(fs, us, n).0, fs);
    case Implies(a, b) => SkolemFits(a, us, n); SkolemFits(b, us, Skolem(a, us, n).1);
    case Iff(a, b) => SkolemFits(a, us, n); SkolemFits(b, us, Skolem(a, us, n).1);
    case _ =>
  }

  lemma {:induction false} SkolemAllFits(fs: seq<Formula>, us: seq<VarId>, n: SymbolId)
    ensures FitsAll(SkolemAll(fs, us, n).0, fs)
    decreases Sizes(fs), 1
  {
    if fs != [] {
      SkolemFits(fs[0], us, n);
      SkolemAllFits(fs[1..], us, Skolem(fs[0], us, n).1);
    }
  }

  lemma {:induction false} StripFits(f: Formula)
    ensures Fits(Strip(f), f)
    decreases f, 1
  {
    match f
    case Forall(_, b) => StripFits(b);
    case Neg(g) => StripFits(g);
    case And(fs) => StripPartsFit(f, fs);
    case Or(fs) => StripPartsFit(f, fs);
    case _ =>
  }

  lemma {:induction false} StripPartsFit(f: Formula, fs: seq<Formula>)
    requires f == And(fs) || f == Or(fs)
    ensures Fits(Strip(f), f)
    decreases f, 0
  {
    var gs := seq(|fs|, i requires 0 <= i < |fs| => Strip(fs[i]));
    forall i | 0 <= i < |fs| ensures Fits(gs[i], fs[i]) { StripFits(fs[i]); }
    FitsEach(gs, fs);
    JunctionFits(gs, fs);
  }

  lemma {:induction false} FitsEach(gs: seq<Formula>, fs: seq<Formula>)
    requires |gs| == |fs| && forall i :: 0 <= i < |fs| ==> Fits(gs[i], fs[i])
    ensures FitsAll(gs, fs)
  {
    if fs != [] { FitsEach(gs[1..], fs[1..]); }
  }

  /** The matrix is no larger than the NNF it comes from, and its disjunctions no wider. */
  lemma MatrixFits(f: Formula, n: SymbolId)
    ensures Fits(Strip(Skolem(f, [], n).0), f)
  {
    SkolemFits(f, [], n);
    StripFits(Skolem(f, [], n).0);
  }
}
