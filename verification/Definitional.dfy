/** Definitional CNF: naming conjunctions under disjunctions by fresh predicates. */
module Tseitin {
  import opened Wrappers
  import opened Fol
  import opened NormalForm
  import opened Skolemization
  import opened Stripping
  import opened Distribution
  import opened ClauseCount

  /** `sym(vars)` names the conjunction of `conjuncts`. */
  datatype Definition = Definition(sym: SymbolId, vars: seq<VarId>, conjuncts: seq<Formula>) {
    function Head(): Formula { AtomF(Pred(sym, VarTerms(vars))) }
  }

  predicate IsMin(x: VarId, s: set<VarId>) {
    x in s && forall y :: y in s ==> x <= y
  }

  lemma {:induction false} HasMin(s: set<VarId>) returns (x: VarId)
    requires s != {}
    ensures IsMin(x, s)
  {
    var z :| z in s;
    x := z;
    if s != {z} {
      var y := HasMin(s - {z});
      if y < z { x := y; }
    }
    forall w | w in s ensures x <= w { assert w == z || w in s - {z}; }
  }

  function Min(s: set<VarId>): (x: VarId)
    requires s != {}
    ensures IsMin(x, s)
  {
    assert exists x :: IsMin(x, s) by { var x := HasMin(s); }
    var x :| x in s && IsMin(x, s);
    x
  }

  /** A variable set in increasing order. */
  function Sorted(s: set<VarId>): (r: seq<VarId>)
    ensures forall x :: x in r <==> x in s
    ensures forall i, j :: 0 <= i < j < |r| ==> r[i] < r[j]
  {
    if s == {} then [] else [Min(s)] + Sorted(s - {Min(s)})
  }

  /** `flatten_conjuncts`: nested conjunctions spliced to any depth. */
  function FlattenConjuncts(fs: seq<Formula>): (r: seq<Formula>)
    ensures forall i :: 0 <= i < |r| ==> !r[i].And?
  {
    if fs == [] then []
    else (if fs[0].And? then FlattenConjuncts(fs[0].parts) else [fs[0]]) + FlattenConjuncts(fs[1..])
  }

  function Introduce(conjuncts: seq<Formula>, n: SymbolId): Definition {
    var flat := FlattenConjuncts(conjuncts);
    Definition(n, Sorted(FreeVars(And(flat))), flat)
  }

  datatype Named = Named(formula: Formula, defs: seq<Definition>, next: SymbolId)
  datatype NamedAll = NamedAll(formulas: seq<Formula>, defs: seq<Definition>, next: SymbolId)

  /** `name_and_under_or`, bottom up; `n` is the next fresh symbol. */
  function Name(f: Formula, threshold: nat, n: SymbolId): (r: Named)
    ensures n <= r.next
    decreases f, 0
  {
    match f
    case And(fs) =>
      var r := NameAll(fs, threshold, n); Named(And(r.formulas), r.defs, r.next)
    case Or(fs) =>
      var r := NameAll(fs, threshold, n);
      if (forall i :: 0 <= i < |r.formulas| ==> !r.formulas[i].And?)
         || (threshold > 1 && EstimateProduct(r.formulas, false, 1) <= threshold)
      then Named(Or(r.formulas), r.defs, r.next)
      else
        var q := NameConjunctions(r.formulas, r.next);
        Named(Or(q.formulas), r.defs + q.defs, q.next)
    case _ => Named(f, [], n)
  }

  function NameAll(fs: seq<Formula>, threshold: nat, n: SymbolId): (r: NamedAll)
    ensures n <= r.next && |r.formulas| == |fs|
    decreases fs, 1
  {
    if fs == [] then NamedAll([], [], n) else
    var x := Name(fs[0], threshold, n);
    var y := NameAll(fs[1..], threshold, x.next);
    NamedAll([x.formula] + y.formulas, x.defs + y.defs, y.next)
  }

  function NameConjunctions(fs: seq<Formula>, n: SymbolId): (r: NamedAll)
    ensures n <= r.next && |r.formulas| == |fs|
  {
    if fs == [] then NamedAll([], [], n)
    else if fs[0].And? then
      var d := Introduce(fs[0].parts, n);
      var y := NameConjunctions(fs[1..], n + 1);
      NamedAll([d.Head()] + y.formulas, [d] + y.defs, y.next)
    else
      var y := NameConjunctions(fs[1..], n);
      NamedAll([fs[0]] + y.formulas, y.defs, y.next)
  }

  /** The clauses of one definition: the head implies each conjunct. */
  function DefinitionClauses(d: Definition): seq<Formula> {
    ConcatAnd(seq(|d.conjuncts|, i requires 0 <= i < |d.conjuncts| => ToCnf(MkOr([Neg(d.Head()), d.conjuncts[i]]))))
  }

  function AllDefinitionClauses(defs: seq<Definition>): seq<Formula> {
    if defs == [] then [] else DefinitionClauses(defs[0]) + AllDefinitionClauses(defs[1..])
  }

  /** `to_cnf_definitional_with_defs_thresh`. */
  function ToCnfDefinitional(f: Formula, threshold: nat, n: SymbolId): (r: Named)
    ensures n <= r.next
  {
    var r := Name(f, threshold, n);
    Named(MkAnd(AllDefinitionClauses(r.defs) + AndParts(ToCnf(r.formula))), r.defs, r.next)
  }

  // ----- the output entails the input

  ghost predicate DefinitionHolds<D(!new)>(m: Structure<D>, e: Env<D>, d: Definition) {
    Holds(m, e, d.Head()) ==> Holds(m, e, And(d.conjuncts))
  }

  ghost predicate DefinitionsHold<D(!new)>(m: Structure<D>, e: Env<D>, defs: seq<Definition>) {
    forall i :: 0 <= i < |defs| ==> DefinitionHolds(m, e, defs[i])
  }

  lemma DefinitionsSplit<D(!new)>(m: Structure<D>, e: Env<D>, p: seq<Definition>, q: seq<Definition>)
    ensures DefinitionsHold(m, e, p + q) == (DefinitionsHold(m, e, p) && DefinitionsHold(m, e, q))
  {
    if DefinitionsHold(m, e, p + q) {
      forall i | 0 <= i < |p| ensures DefinitionHolds(m, e, p[i]) { assert (p + q)[i] == p[i]; }
      forall i | 0 <= i < |q| ensures DefinitionHolds(m, e, q[i]) { assert (p + q)[|p| + i] == q[i]; }
    }
  }

  lemma {:induction false} FlattenConjunctsHold<D(!new)>(m: Structure<D>, e: Env<D>, fs: seq<Formula>)
    ensures Holds(m, e, And(FlattenConjuncts(fs))) == Holds(m, e, And(fs))
  {
    if fs != [] {
      var p := if fs[0].And? then FlattenConjuncts(fs[0].parts) else [fs[0]];
      if fs[0].And? { FlattenConjunctsHold(m, e, fs[0].parts); } else { assert p[0] == fs[0]; }
      FlattenConjunctsHold(m, e, fs[1..]);
      AndSplit(m, e, p, FlattenConjuncts(fs[1..]));
      ConsHolds(m, e, fs);
    }
  }

  lemma {:induction false} NameSound<D(!new)>(m: Structure<D>, e: Env<D>, f: Formula, threshold: nat, n: SymbolId)
    requires var r := Name(f, threshold, n); DefinitionsHold(m, e, r.defs) && Holds(m, e, r.formula)
    ensures Holds(m, e, f)
    decreases f, 0
  {
    match f
    case And(fs) => NameAllSound(m, e, fs, threshold, n);
    case Or(fs) =>
      var r := NameAll(fs, threshold, n);
      var q := NameConjunctions(r.formulas, r.next);
      DefinitionsSplit(m, e, r.defs, q.defs);
      NameAllSound(m, e, fs, threshold, n);
      if DefinitionsHold(m, e, q.defs) { NameConjunctionsSound(m, e, r.formulas, r.next); }
    case _ =>
  }

  lemma {:induction false} NameAllSound<D(!new)>(m: Structure<D>, e: Env<D>, fs: seq<Formula>, threshold: nat,
                                          n: SymbolId)
    ensures var r := NameAll(fs, threshold, n);
      DefinitionsHold(m, e, r.defs) ==> forall i :: 0 <= i < |fs| && Holds(m, e, r.formulas[i]) ==> Holds(m, e, fs[i])
    decreases fs, 1
  {
    if fs != [] {
      var x := Name(fs[0], threshold, n);
      var y := NameAll(fs[1..], threshold, x.next);
      DefinitionsSplit(m, e, x.defs, y.defs);
      NameAllSound(m, e, fs[1..], threshold, x.next);
      if DefinitionsHold(m, e, x.defs) && Holds(m, e, x.formula) { NameSound(m, e, fs[0], threshold, n); }
    }
  }

  lemma {:induction false} NameConjunctionsSound<D(!new)>(m: Structure<D>, e: Env<D>, fs: seq<Formula>, n: SymbolId)
    requires DefinitionsHold(m, e, NameConjunctions(fs, n).defs)
    ensures forall i :: 0 <= i < |fs| && Holds(m, e, NameConjunctions(fs, n).formulas[i]) ==> Holds(m, e, fs[i])
  {
    if fs != [] {
      if fs[0].And? {
        var d := Introduce(fs[0].parts, n);
        DefinitionsSplit(m, e, [d], NameConjunctions(fs[1..], n + 1).defs);
        FlattenConjunctsHold(m, e, fs[0].parts);
        NameConjunctionsSound(m, e, fs[1..], n + 1);
        assert DefinitionHolds(m, e, [d][0]);
      } else {
        NameConjunctionsSound(m, e, fs[1..], n);
      }
    }
  }

  lemma DefinitionClausesHold<D(!new)>(m: Structure<D>, e: Env<D>, d: Definition)
    ensures Holds(m, e, And(DefinitionClauses(d))) == DefinitionHolds(m, e, d)
  {
    var gs := seq(|d.conjuncts|, i requires 0 <= i < |d.conjuncts| => ToCnf(MkOr([Neg(d.Head()), d.conjuncts[i]])));
    forall i | 0 <= i < |gs| ensures Holds(m, e, gs[i]) == (Holds(m, e, d.Head()) ==> Holds(m, e, d.conjuncts[i])) {
      ToCnfHolds(m, e, MkOr([Neg(d.Head()), d.conjuncts[i]]));
      PairHolds(m, e, Neg(d.Head()), d.conjuncts[i]);
    }
    ConcatAndHolds(m, e, gs);
  }

  lemma {:induction false} AllDefinitionClausesHold<D(!new)>(m: Structure<D>, e: Env<D>, defs: seq<Definition>)
    ensures Holds(m, e, And(AllDefinitionClauses(defs))) == DefinitionsHold(m, e, defs)
  {
    if defs != [] {
      DefinitionClausesHold(m, e, defs[0]);
      AllDefinitionClausesHold(m, e, defs[1..]);
      AndSplit(m, e, DefinitionClauses(defs[0]), AllDefinitionClauses(defs[1..]));
      DefinitionsFirst(m, e, defs);
    }
  }

  lemma DefinitionsFirst<D(!new)>(m: Structure<D>, e: Env<D>, defs: seq<Definition>)
    requires defs != []
    ensures DefinitionsHold(m, e, defs) == (DefinitionsHold(m, e, [defs[0]]) && DefinitionsHold(m, e, defs[1..]))
  {
    assert defs == [defs[0]] + defs[1..];
    DefinitionsSplit(m, e, [defs[0]], defs[1..]);
  }

  lemma OutputHolds<D(!new)>(m: Structure<D>, e: Env<D>, f: Formula, threshold: nat, n: SymbolId)
    ensures var r := Name(f, threshold, n);
      Holds(m, e, ToCnfDefinitional(f, threshold, n).formula) ==
        (DefinitionsHold(m, e, r.defs) && Holds(m, e, r.formula))
  {
    var r := Name(f, threshold, n);
    AllDefinitionClausesHold(m, e, r.defs);
    ToCnfHolds(m, e, r.formula);
    MkAndSplit(m, e, AllDefinitionClauses(r.defs), ToCnf(r.formula));
  }

  lemma MkAndSplit<D(!new)>(m: Structure<D>, e: Env<D>, p: seq<Formula>, g: Formula)
    ensures Holds(m, e, MkAnd(p + AndParts(g))) == (Holds(m, e, And(p)) && Holds(m, e, g))
  {
    var q := AndParts(g);
    AndPartsHold(m, e, g);
    AndSplit(m, e, p, q);
    if |p + q| == 1 { assert Holds(m, e, And(p + q)) == Holds(m, e, (p + q)[0]); }
  }

  // ----- shape: pure CNF, and definitions in dependency order

  /** Each definition mentions only symbols older than its own, and its own id is fresh. */
  ghost predicate DefsBetween(defs: seq<Definition>, n: SymbolId, k: SymbolId) {
    forall i :: 0 <= i < |defs| ==>
      n <= defs[i].sym < k && AllMatrix(defs[i].conjuncts, defs[i].sym)
  }

  lemma {:induction false} FlattenConjunctsMatrix(fs: seq<Formula>, n: SymbolId)
    requires AllMatrix(fs, n)
    ensures AllMatrix(FlattenConjuncts(fs), n)
  {
    if fs != [] {
      if fs[0].And? { FlattenConjunctsMatrix(fs[0].parts, n); }
      FlattenConjunctsMatrix(fs[1..], n);
    }
  }

  lemma {:induction false} NameShape(f: Formula, threshold: nat, n: SymbolId)
    requires IsMatrix(f) && SymsBelow(f, n)
    ensures var r := Name(f, threshold, n);
      IsMatrix(r.formula) && SymsBelow(r.formula, r.next) && DefsBetween(r.defs, n, r.next)
    decreases f, 0
  {
    match f
    case And(fs) => NameAllShape(fs, threshold, n);
    case Or(fs) =>
      NameAllShape(fs, threshold, n);
      var r := NameAll(fs, threshold, n);
      NameConjunctionsShape(r.formulas, r.next);
    case _ =>
  }

  lemma {:induction false} NameAllShape(fs: seq<Formula>, threshold: nat, n: SymbolId)
    requires AllMatrix(fs, n)
    ensures var r := NameAll(fs, threshold, n); AllMatrix(r.formulas, r.next) && DefsBetween(r.defs, n, r.next)
    decreases fs, 1
  {
    if fs != [] {
      var x := Name(fs[0], threshold, n);
      NameShape(fs[0], threshold, n);
      forall i | 0 <= i < |fs[1..]| ensures SymsBelow(fs[1..][i], x.next) { SymsMono(fs[i + 1], n, x.next); }
      NameAllShape(fs[1..], threshold, x.next);
      SymsMono(x.formula, x.next, NameAll(fs, threshold, n).next);
    }
  }

  lemma {:induction false} NameConjunctionsShape(fs: seq<Formula>, n: SymbolId)
    requires AllMatrix(fs, n)
    ensures var r := NameConjunctions(fs, n); AllMatrix(r.formulas, r.next) && DefsBetween(r.defs, n, r.next)
  {
    if fs != [] {
      var k := if fs[0].And? then n + 1 else n;
      forall i | 0 <= i < |fs[1..]| ensures SymsBelow(fs[1..][i], k) { SymsMono(fs[i + 1], n, k); }
      NameConjunctionsShape(fs[1..], k);
      if fs[0].And? {
        FlattenConjunctsMatrix(fs[0].parts, n);
      } else {
        SymsMono(fs[0], n, NameConjunctions(fs, n).next);
      }
    }
  }

  lemma {:induction false} AllDefinitionClausesShape(defs: seq<Definition>, n: SymbolId, k: SymbolId)
    requires DefsBetween(defs, n, k)
    ensures forall i :: 0 <= i < |AllDefinitionClauses(defs)| ==>
      IsClause(AllDefinitionClauses(defs)[i]) && SymsBelow(AllDefinitionClauses(defs)[i], k)
  {
    if defs != [] {
      var d := defs[0];
      var gs := seq(|d.conjuncts|, i requires 0 <= i < |d.conjuncts| => ToCnf(MkOr([Neg(d.Head()), d.conjuncts[i]])));
      forall i | 0 <= i < |gs| ensures CnfBelow(gs[i], k) {
        SymsMono(d.conjuncts[i], d.sym, k);
        ToCnfShape(MkOr([Neg(d.Head()), d.conjuncts[i]]), k);
      }
      ConcatCnf(gs, k);
      AllDefinitionClausesShape(defs[1..], n, k);
    }
  }

  /** The result is pure CNF, so clause extraction meets literals only. */
  lemma ToCnfDefinitionalShape(f: Formula, threshold: nat, n: SymbolId)
    requires IsMatrix(f) && SymsBelow(f, n)
    ensures var r := ToCnfDefinitional(f, threshold, n);
      IsCnf(r.formula) && SymsBelow(r.formula, r.next) && DefsBetween(r.defs, n, r.next)
  {
    var r := Name(f, threshold, n);
    NameShape(f, threshold, n);
    AllDefinitionClausesShape(r.defs, n, r.next);
    ToCnfShape(r.formula, r.next);
    MkAndShape(AllDefinitionClauses(r.defs), ToCnf(r.formula), r.next);
  }

  lemma MkAndShape(cs: seq<Formula>, g: Formula, n: SymbolId)
    requires (forall i :: 0 <= i < |cs| ==> IsClause(cs[i]) && SymsBelow(cs[i], n)) && CnfBelow(g, n)
    ensures CnfBelow(MkAnd(cs + AndParts(g)), n)
  {
  }

  // ----- every model of the input extends to the definitions

  /** `m` with the fresh predicate `n` read as the truth of `f` at its arguments. */
  ghost function WithPredicate<D(!new, 00)>(m: Structure<D>, n: SymbolId, xs: seq<VarId>, f: Formula): Structure<D> {
    Structure(m.fun, (s: SymbolId, ds: seq<D>) =>
      if s == n then Holds(m, ArgEnv(xs, ds, Anything()), f) else m.pred(s, ds))
  }

  lemma PredicateMeans<D(!new, 00)>(m: Structure<D>, e: Env<D>, n: SymbolId, xs: seq<VarId>, f: Formula)
    requires SymsBelow(f, n) && forall x :: x in FreeVars(f) ==> x in xs
    ensures var m2 := WithPredicate(m, n, xs, f);
      && AgreeBelow(m, m2, n)
      && Holds(m2, e, AtomF(Pred(n, VarTerms(xs)))) == Holds(m, e, f)
      && Holds(m2, e, f) == Holds(m, e, f)
  {
    var m2 := WithPredicate(m, n, xs, f);
    var ds := Vals(m2, e, VarTerms(xs));
    ArgEnvAgrees(m2, e, xs, Anything(), FreeVars(f));
    HoldsAgree(m, m, e, ArgEnv(xs, ds, Anything()), f, 0);
    HoldsAgree(m, m2, e, e, f, n);
  }

  /** Every definition holds in both directions under every assignment. */
  ghost predicate DefinitionsExact<D(!new)>(m: Structure<D>, defs: seq<Definition>) {
    forall i, e: Env<D> :: 0 <= i < |defs| ==> Holds(m, e, defs[i].Head()) == Holds(m, e, And(defs[i].conjuncts))
  }

  lemma ExactKept<D(!new)>(m: Structure<D>, m2: Structure<D>, defs: seq<Definition>, n: SymbolId, k: SymbolId)
    requires DefinitionsExact(m, defs) && DefsBetween(defs, n, k) && AgreeBelow(m, m2, k)
    ensures DefinitionsExact(m2, defs)
  {
    forall i, e: Env<D> | 0 <= i < |defs|
      ensures Holds(m2, e, defs[i].Head()) == Holds(m2, e, And(defs[i].conjuncts))
    {
      var d := defs[i];
      forall j | 0 <= j < |d.conjuncts| ensures SymsBelow(d.conjuncts[j], k) { SymsMono(d.conjuncts[j], d.sym, k); }
      HoldsAgree(m, m2, e, e, And(d.conjuncts), k);
      HoldsAgree(m, m2, e, e, d.Head(), k);
    }
  }

  lemma {:induction false} NameComplete<D(!new, 00)>(m: Structure<D>, f: Formula, threshold: nat, n: SymbolId)
    returns (m2: Structure<D>)
    requires IsMatrix(f) && SymsBelow(f, n)
    ensures AgreeBelow(m, m2, n) && DefinitionsExact(m2, Name(f, threshold, n).defs)
    ensures forall e: Env<D> :: Holds(m2, e, Name(f, threshold, n).formula) == Holds(m, e, f)
    decreases f, 0
  {
    match f
    case And(fs) =>
      m2 := NameAllComplete(m, fs, threshold, n);
      forall e: Env<D> { SameParts(m2, m, e, NameAll(fs, threshold, n).formulas, fs); }
    case Or(fs) =>
      var m1 := NameAllComplete(m, fs, threshold, n);
      var r := NameAll(fs, threshold, n);
      NameAllShape(fs, threshold, n);
      if Name(f, threshold, n).formula == Or(r.formulas) && Name(f, threshold, n).defs == r.defs {
        m2 := m1;
        forall e: Env<D> { SameParts(m2, m, e, r.formulas, fs); }
      } else {
        var q := NameConjunctions(r.formulas, r.next);
        m2 := NameConjunctionsComplete(m1, r.formulas, r.next);
        ExactKept(m1, m2, r.defs, n, r.next);
        forall e: Env<D> ensures Holds(m2, e, Or(q.formulas)) == Holds(m, e, f) {
          SameParts(m1, m, e, r.formulas, fs);
          SameParts(m2, m1, e, q.formulas, r.formulas);
        }
      }
    case _ => m2 := m;
  }

  lemma {:induction false} NameAllComplete<D(!new, 00)>(m: Structure<D>, fs: seq<Formula>, threshold: nat, n: SymbolId)
    returns (m2: Structure<D>)
    requires AllMatrix(fs, n)
    ensures AgreeBelow(m, m2, n) && DefinitionsExact(m2, NameAll(fs, threshold, n).defs)
    ensures forall i, e: Env<D> :: 0 <= i < |fs| ==>
      Holds(m2, e, NameAll(fs, threshold, n).formulas[i]) == Holds(m, e, fs[i])
    decreases fs, 1
  {
    if fs == [] { return m; }
    var x := Name(fs[0], threshold, n);
    var m1 := NameComplete(m, fs[0], threshold, n);
    NameShape(fs[0], threshold, n);
    forall i | 0 <= i < |fs[1..]| ensures SymsBelow(fs[1..][i], x.next) { SymsMono(fs[i + 1], n, x.next); }
    m2 := NameAllComplete(m1, fs[1..], threshold, x.next);
    ExactKept(m1, m2, x.defs, n, x.next);
    forall i, e: Env<D> | 0 <= i < |fs|
      ensures Holds(m2, e, NameAll(fs, threshold, n).formulas[i]) == Holds(m, e, fs[i])
    {
      if i == 0 {
        HoldsAgree(m1, m2, e, e, x.formula, x.next);
      } else {
        assert fs[1..][i - 1] == fs[i];
        HoldsAgree(m, m1, e, e, fs[i], n);
      }
    }
  }

  lemma {:induction false} NameConjunctionsComplete<D(!new, 00)>(m: Structure<D>, fs: seq<Formula>, n: SymbolId)
    returns (m2: Structure<D>)
    requires AllMatrix(fs, n)
    ensures AgreeBelow(m, m2, n) && DefinitionsExact(m2, NameConjunctions(fs, n).defs)
    ensures forall i, e: Env<D> :: 0 <= i < |fs| ==>
      Holds(m2, e, NameConjunctions(fs, n).formulas[i]) == Holds(m, e, fs[i])
    decreases fs
  {
    if fs == [] { return m; }
    var k := if fs[0].And? then n + 1 else n;
    forall i | 0 <= i < |fs[1..]| ensures SymsBelow(fs[1..][i], k) { SymsMono(fs[i + 1], n, k); }
    var first := if fs[0].And? then Introduce(fs[0].parts, n).Head() else fs[0];
    var m1 := m;
    if fs[0].And? { m1 := NameOneComplete(m, fs[0].parts, n); }
    assert SymsBelow(first, k);
    m2 := NameConjunctionsComplete(m1, fs[1..], k);
    if fs[0].And? { ExactKept(m1, m2, [Introduce(fs[0].parts, n)], n, k); }
    forall i, e: Env<D> | 0 <= i < |fs|
      ensures Holds(m2, e, NameConjunctions(fs, n).formulas[i]) == Holds(m, e, fs[i])
    {
      if i == 0 {
        HoldsAgree(m1, m2, e, e, first, k);
      } else {
        assert fs[1..][i - 1] == fs[i];
        HoldsAgree(m, m1, e, e, fs[i], n);
      }
    }
  }

  /** One name, read as the conjunction it stands for. */
  lemma NameOneComplete<D(!new, 00)>(m: Structure<D>, parts: seq<Formula>, n: SymbolId) returns (m1: Structure<D>)
    requires AllMatrix(parts, n)
    ensures var d := Introduce(parts, n); m1 == WithPredicate(m, n, d.vars, And(d.conjuncts))
    ensures AgreeBelow(m, m1, n) && SymsBelow(Introduce(parts, n).Head(), n + 1)
    ensures forall e: Env<D> :: Holds(m1, e, Introduce(parts, n).Head()) == Holds(m, e, And(parts))
    ensures DefinitionsExact(m1, [Introduce(parts, n)]) && DefsBetween([Introduce(parts, n)], n, n + 1)
  {
    var d := Introduce(parts, n);
    m1 := WithPredicate(m, n, d.vars, And(d.conjuncts));
    FlattenConjunctsMatrix(parts, n);
    forall e: Env<D>
      ensures Holds(m1, e, d.Head()) == Holds(m, e, And(parts))
        && Holds(m1, e, d.Head()) == Holds(m1, e, And(d.conjuncts))
    {
      FlattenConjunctsHold(m, e, parts);
      PredicateMeans(m, e, n, d.vars, And(d.conjuncts));
    }
  }

  /** Tseitin naming is a conservative extension at every threshold: the output entails the
      input, and every model of the input expands to all the definitions. */
  lemma TseitinCorrect<D(!new, 00)>(f: Formula, threshold: nat, n: SymbolId)
    requires IsMatrix(f) && SymsBelow(f, n)
    ensures forall m: Structure<D>, e: Env<D> :: Holds(m, e, ToCnfDefinitional(f, threshold, n).formula) ==>
      Holds(m, e, f)
    ensures forall m: Structure<D> :: Expandable(m, n, f, ToCnfDefinitional(f, threshold, n).formula)
  {
    var out, r := ToCnfDefinitional(f, threshold, n).formula, Name(f, threshold, n);
    forall m: Structure<D>, e: Env<D> | Holds(m, e, out) ensures Holds(m, e, f) {
      OutputHolds(m, e, f, threshold, n);
      NameSound(m, e, f, threshold, n);
    }
    forall m: Structure<D> ensures Expandable(m, n, f, out) {
      var m2 := NameComplete(m, f, threshold, n);
      forall e: Env<D> | Holds(m, e, f) ensures Holds(m2, e, out) {
        OutputHolds(m2, e, f, threshold, n);
        assert DefinitionsHold(m2, e, r.defs);
      }
      assert Expands(m, m2, n, f, out);
    }
  }

  // ----- the context that collects definitions

  /** `flatten_conjuncts` with its accumulator. */
  method FlattenInto(fs: seq<Formula>, out: seq<Formula>) returns (r: seq<Formula>)
    ensures r == out + FlattenConjuncts(fs)
    decreases fs
  {
    r := out;
    assert fs[0..] == fs;
    for i := 0 to |fs|
      invariant r + FlattenConjuncts(fs[i..]) == out + FlattenConjuncts(fs)
    {
      assert fs[i..][1..] == fs[i + 1..];
      ghost var first := if fs[i].And? then FlattenConjuncts(fs[i].parts) else [fs[i]];
      ConcatAssoc(r, first, FlattenConjuncts(fs[i + 1..]));
      if fs[i].And? {
        r := FlattenInto(fs[i].parts, r);
      } else {
        r := r + [fs[i]];
      }
    }
    assert fs[|fs|..] == [] && r + [] == r;
  }

  lemma FreeVarsSnoc(fs: seq<Formula>, i: nat)
    requires i < |fs|
    ensures FreeVars(And(fs[..i + 1])) == FreeVars(And(fs[..i])) + FreeVars(fs[i])
  {
    var p, q := fs[..i], fs[..i + 1];
    forall x | x in FreeVars(And(p)) + FreeVars(fs[i]) ensures x in FreeVars(And(q)) {
      if x in FreeVars(fs[i]) {
        assert q[i] == fs[i];
      } else {
        var j :| 0 <= j < |p| && x in FreeVars(p[j]);
        assert q[j] == p[j];
      }
    }
    forall x | x in FreeVars(And(q)) ensures x in FreeVars(And(p)) + FreeVars(fs[i]) {
      var j :| 0 <= j < |q| && x in FreeVars(q[j]);
      if j < i { assert p[j] == q[j]; }
    }
  }

  /** The symbol table, as its length, and the definitions pushed so far. */
  class DefCtx {
    const threshold: nat
    var symbols: SymbolId
    var definitions: seq<Definition>

    constructor (threshold: nat, symbols: SymbolId)
      ensures this.threshold == threshold && this.symbols == symbols && definitions == []
    {
      this.threshold := threshold;
      this.symbols := symbols;
      definitions := [];
    }

    /** `introduce_name`: flatten, collect the free variables in order, push the definition. */
    method IntroduceName(conjuncts: seq<Formula>) returns (r: Formula)
      modifies this
      ensures symbols == old(symbols) + 1
      ensures definitions == old(definitions) + [Introduce(conjuncts, old(symbols))]
      ensures r == Introduce(conjuncts, old(symbols)).Head()
    {
      var flat := FlattenInto(conjuncts, []);
      assert [] + FlattenConjuncts(conjuncts) == FlattenConjuncts(conjuncts);
      var vars: set<VarId> := {};
      for i := 0 to |flat|
        invariant vars == FreeVars(And(flat[..i]))
        modifies {}
      {
        FreeVarsSnoc(flat, i);
        vars := vars + FreeVars(flat[i]);
      }
      assert flat[..|flat|] == flat;
      var sorted := Sorted(vars);
      var head := AtomF(Pred(symbols, VarTerms(sorted)));
      definitions := definitions + [Definition(symbols, sorted, flat)];
      symbols := symbols + 1;
      r := head;
    }

    /** `name_and_under_or`: children first, definitions pushed in the order they are made. */
    method NameAndUnderOr(f: Formula) returns (r: Formula)
      modifies this
      ensures var n := Name(f, threshold, old(symbols));
        r == n.formula && symbols == n.next && definitions == old(definitions) + n.defs
      decreases f, 1
    {
      if f.And? {
        var children := NameChildren(f.parts);
        r := And(children);
      } else if f.Or? {
        r := NameDisjunction(f);
      } else {
        r := f;
      }
    }

    method NameDisjunction(f: Formula) returns (r: Formula)
      requires f.Or?
      modifies this
      ensures var n := Name(f, threshold, old(symbols));
        r == n.formula && symbols == n.next && definitions == old(definitions) + n.defs
      decreases f, 0
    {
      var children := NameChildren(f.parts);
      if forall i :: 0 <= i < |children| ==> !children[i].And? { return Or(children); }
      if threshold > 1 {
        var estimate := EstimateProduct(children, false, 1);
        if estimate <= threshold { return Or(children); }
      }
      var named := NameConjuncts(children);
      r := Or(named);
    }

    method NameChildren(fs: seq<Formula>) returns (gs: seq<Formula>)
      modifies this
      ensures var n := NameAll(fs, threshold, old(symbols));
        gs == n.formulas && symbols == n.next && definitions == old(definitions) + n.defs
      decreases fs, 0
    {
      gs := [];
      ghost var all, pushed := NameAll(fs, threshold, symbols), [];
      assert fs[0..] == fs;
      for i := 0 to |fs|
        invariant definitions == old(definitions) + pushed
        invariant all == Prepended(gs, pushed, NameAll(fs[i..], threshold, symbols))
      {
        assert fs[i..][1..] == fs[i + 1..];
        ghost var x := Name(fs[i], threshold, symbols);
        PrependedStep(gs, pushed, x, NameAll(fs[i + 1..], threshold, x.next));
        var g := NameAndUnderOr(fs[i]);
        gs, pushed := gs + [g], pushed + x.defs;
      }
      assert fs[|fs|..] == [] && gs + [] == gs && pushed + [] == pushed;
    }

    /** The loop that replaces every conjunction by its name. */
    method NameConjuncts(fs: seq<Formula>) returns (gs: seq<Formula>)
      modifies this
      ensures var n := NameConjunctions(fs, old(symbols));
        gs == n.formulas && symbols == n.next && definitions == old(definitions) + n.defs
    {
      gs := [];
      ghost var all, pushed := NameConjunctions(fs, symbols), [];
      assert fs[0..] == fs;
      for i := 0 to |fs|
        invariant definitions == old(definitions) + pushed
        invariant all == Prepended(gs, pushed, NameConjunctions(fs[i..], symbols))
      {
        assert fs[i..][1..] == fs[i + 1..];
        if fs[i].And? {
          ghost var d := Introduce(fs[i].parts, symbols);
          PrependedStep(gs, pushed, Named(d.Head(), [d], symbols + 1), NameConjunctions(fs[i + 1..], symbols + 1));
          var g := IntroduceName(fs[i].parts);
          gs, pushed := gs + [g], pushed + [d];
        } else {
          PrependedStep(gs, pushed, Named(fs[i], [], symbols), NameConjunctions(fs[i + 1..], symbols));
          assert [] + NameConjunctions(fs[i + 1..], symbols).defs == NameConjunctions(fs[i + 1..], symbols).defs;
          assert pushed + [] == pushed;
          gs := gs + [fs[i]];
        }
      }
      assert fs[|fs|..] == [] && gs + [] == gs && pushed + [] == pushed;
    }
  }

  function Prepended(gs: seq<Formula>, defs: seq<Definition>, r: NamedAll): NamedAll {
    NamedAll(gs + r.formulas, defs + r.defs, r.next)
  }

  lemma PrependedStep(gs: seq<Formula>, defs: seq<Definition>, x: Named, y: NamedAll)
    ensures Prepended(gs, defs, NamedAll([x.formula] + y.formulas, x.defs + y.defs, y.next)) ==
      Prepended(gs + [x.formula], defs + x.defs, y)
  {
    assert gs + ([x.formula] + y.formulas) == gs + [x.formula] + y.formulas;
    assert defs + (x.defs + y.defs) == defs + x.defs + y.defs;
  }

  /** `to_cnf_definitional_with_defs_thresh`. */
  method ConvertDefinitional(f: Formula, threshold: nat, symbols: SymbolId) returns (r: Named)
    ensures r == ToCnfDefinitional(f, threshold, symbols)
  {
    var ctx := new DefCtx(threshold, symbols);
    var renamed := ctx.NameAndUnderOr(f);
    var defs := ctx.definitions;
    assert defs == [] + Name(f, threshold, symbols).defs == Name(f, threshold, symbols).defs;
    var all := CollectDefinitionClauses(defs);
    var main := ConvertToCnf(renamed);
    r := Named(MkAnd(all + AndParts(main)), defs, ctx.symbols);
  }

  method CollectDefinitionClauses(defs: seq<Definition>) returns (all: seq<Formula>)
    ensures all == AllDefinitionClauses(defs)
  {
    all := [];
    assert defs[0..] == defs && [] + AllDefinitionClauses(defs) == AllDefinitionClauses(defs);
    for i := 0 to |defs|
      invariant all + AllDefinitionClauses(defs[i..]) == AllDefinitionClauses(defs)
    {
      assert defs[i..][1..] == defs[i + 1..];
      ConcatAssoc(all, DefinitionClauses(defs[i]), AllDefinitionClauses(defs[i + 1..]));
      var cs := ClausesOfDefinition(defs[i]);
      all := all + cs;
    }
    assert defs[|defs|..] == [] && all + [] == all;
  }

  method ClausesOfDefinition(d: Definition) returns (cs: seq<Formula>)
    ensures cs == DefinitionClauses(d)
  {
    cs := [];
    ghost var all := seq(|d.conjuncts|,
      i requires 0 <= i < |d.conjuncts| => ToCnf(MkOr([Neg(d.Head()), d.conjuncts[i]])));
    assert all[..0] == [];
    for i := 0 to |d.conjuncts|
      invariant cs == ConcatAnd(all[..i])
    {
      var g := ConvertToCnf(MkOr([Neg(d.Head()), d.conjuncts[i]]));
      assert all[..i + 1] == all[..i] + [g];
      ConcatAndSnoc(all[..i], g);
      cs := cs + AndParts(g);
    }
    assert all[..|d.conjuncts|] == all;
  }
}
