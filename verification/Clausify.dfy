/** The clausification pipeline and its end-to-end theorem. */
module Clausification {
  import opened Wrappers
  import opened Fol
  import opened NormalForm
  import opened Skolemization
  import opened Stripping
  import opened Distribution
  import opened ClauseCount
  import opened Tseitin
  import opened CnfBound
  import opened IffRenaming
  import opened Extraction

  const DEFAULT_RENAMING_THRESHOLD: nat := 8

  predicate ContainsAnd(f: Formula) {
    match f
    case And(_) => true
    case Or(ds) => exists i :: 0 <= i < |ds| && ContainsAnd(ds[i])
    case _ => false
  }

  predicate HasAndUnderOr(f: Formula) {
    match f
    case Or(ds) => exists i :: 0 <= i < |ds| && ContainsAnd(ds[i])
    case And(cs) => exists i :: 0 <= i < |cs| && HasAndUnderOr(cs[i])
    case _ => false
  }

  datatype Produced = Produced(clauses: Extracted, next: SymbolId)

  /** Definitional CNF only where distribution could blow up. */
  function MatrixCnf(f: Formula, threshold: nat, n: SymbolId): (r: Named)
    ensures n <= r.next
  {
    if HasAndUnderOr(f) then ToCnfDefinitional(f, threshold, n) else Named(ToCnf(f), [], n)
  }

  /** NNF, Skolemization, quantifier stripping, CNF and clause extraction of one formula. */
  function ClausifyOne(f: Formula, threshold: nat, n: SymbolId): (r: Produced)
    ensures n <= r.next
  {
    var sk := Skolem(ToNnf(f), [], n);
    var c := MatrixCnf(Strip(sk.0), threshold, sk.1);
    Produced(Extract(c.formula), c.next)
  }

  function ClausifyDefs(defs: seq<IffDef>, n: SymbolId): (r: Produced)
    ensures n <= r.next
  {
    if defs == [] then Produced(Clauses([]), n) else
    var x := ClausifyOne(ClosedDefinition(defs[0]), DEFAULT_RENAMING_THRESHOLD, n);
    var y := ClausifyDefs(defs[1..], x.next);
    Produced(if x.clauses.Clauses? then Join(x.clauses.clauses, y.clauses) else ExtractPanic, y.next)
  }

  /** `clausify_with_provenance`, clauses only: renaming, the main formula, every definition,
      and the final simplification. */
  function Clausify(f: Formula, n: SymbolId): Extracted {
    var ren := Rename(f, DEFAULT_RENAMING_THRESHOLD, n);
    var main := ClausifyOne(ren.formula, 1, ren.next);
    var defs := ClausifyDefs(ren.defs, main.next);
    if main.clauses.Clauses? && defs.clauses.Clauses?
    then Clauses(Simplify(main.clauses.clauses + defs.clauses.clauses))
    else ExtractPanic
  }

  // ----- symbols of clauses

  predicate ClauseBelow(c: Clause, n: SymbolId) {
    forall i :: 0 <= i < |c| ==> AtomSymsBelow(c[i].atom, n)
  }

  predicate ClausesBelow(cs: seq<Clause>, n: SymbolId) {
    forall i :: 0 <= i < |cs| ==> ClauseBelow(cs[i], n)
  }

  lemma {:induction false} CollectBelow(f: Formula, n: SymbolId)
    requires SymsBelow(f, n)
    ensures Collect(f).Lits? ==> ClauseBelow(Collect(f).lits, n)
    decreases f, 0
  {
    if f.Or? { CollectAllBelow(f.parts, n); }
  }

  lemma {:induction false} CollectAllBelow(ds: seq<Formula>, n: SymbolId)
    requires forall i :: 0 <= i < |ds| ==> SymsBelow(ds[i], n)
    ensures CollectAll(ds).Lits? ==> ClauseBelow(CollectAll(ds).lits, n)
    decreases ds, 1
  {
    if ds != [] {
      CollectBelow(ds[0], n);
      CollectAllBelow(ds[1..], n);
    }
  }

  lemma {:induction false} ExtractBelow(f: Formula, n: SymbolId)
    requires SymsBelow(f, n)
    ensures Extract(f).Clauses? ==> ClausesBelow(Extract(f).clauses, n)
    decreases f, 0
  {
    if f.And? { ExtractAllBelow(f.parts, n); } else { CollectBelow(f, n); }
  }

  lemma {:induction false} ExtractAllBelow(fs: seq<Formula>, n: SymbolId)
    requires forall i :: 0 <= i < |fs| ==> SymsBelow(fs[i], n)
    ensures ExtractAll(fs).Clauses? ==> ClausesBelow(ExtractAll(fs).clauses, n)
    decreases fs, 1
  {
    if fs != [] {
      ExtractBelow(fs[0], n);
      ExtractAllBelow(fs[1..], n);
    }
  }

  lemma ClausesAgree<D(!new)>(m1: Structure<D>, m2: Structure<D>, cs: seq<Clause>, n: SymbolId)
    requires ClausesBelow(cs, n) && AgreeBelow(m1, m2, n) && Models(m1, cs)
    ensures Models(m2, cs)
  {
    forall e: Env<D> ensures ClausesHold(m2, e, cs) {
      assert ClausesHold(m1, e, cs);
      forall i | 0 <= i < |cs| ensures ClauseHolds(m2, e, cs[i]) {
        assert ClauseHolds(m1, e, cs[i]);
        var j :| 0 <= j < |cs[i]| && LiteralHolds(m1, e, cs[i][j]);
        AtomAgree(m1, m2, e, e, cs[i][j].atom, n);
        assert LiteralHolds(m2, e, cs[i][j]);
      }
    }
  }

  // ----- one formula

  /** What lowering guarantees of an input: it is closed and its binders are distinct. */
  ghost predicate Lowered(f: Formula, n: SymbolId) {
    Closed(f) && Distinct(f) && SymsBelow(f, n)
  }

  /** What the passes after renaming need of a formula: besides, no variable that becomes
      existential lies below the nesting cut-off of substitution. */
  ghost predicate Clausifiable(f: Formula, n: SymbolId) {
    Lowered(f, n) && Shallow(f, false)
  }

  /** That condition on everything renaming passes on: the formula and the closed definitions. */
  ghost predicate PiecesShallow(f: Formula, n: SymbolId) {
    var r := Rename(f, DEFAULT_RENAMING_THRESHOLD, n);
    Shallow(r.formula, false) && DefsShallow(r.defs)
  }

  ghost predicate DefsShallow(defs: seq<IffDef>) {
    forall i :: 0 <= i < |defs| ==> Shallow(ClosedDefinition(defs[i]), false)
  }

  /** Skolemization of every piece leaves no variable free, whatever symbols come first. */
  ghost predicate PiecesClose(f: Formula, n: SymbolId) {
    var r := Rename(f, DEFAULT_RENAMING_THRESHOLD, n);
    && (forall k: SymbolId :: r.next <= k ==> Closed(Skolem(ToNnf(r.formula), [], k).0))
    && (forall i, k: SymbolId :: 0 <= i < |r.defs| && r.next <= k ==>
         Closed(Skolem(ToNnf(ClosedDefinition(r.defs[i])), [], k).0))
  }

  ghost predicate ModelExtends<D(!new)>(m: Structure<D>, n: SymbolId, cs: seq<Clause>) {
    exists m2: Structure<D> :: AgreeBelow(m, m2, n) && Models(m2, cs)
  }

  lemma NnfHygienic(f: Formula, n: SymbolId)
    requires Lowered(f, n)
    ensures Hygienic(ToNnf(f), [], n)
  {
    NnfShape(f, false, n);
  }

  lemma NnfReady(f: Formula, n: SymbolId)
    requires Clausifiable(f, n)
    ensures Ready(ToNnf(f), [], n)
  {
    NnfShape(f, false, n);
    NnfShallow(f, false);
  }

  /** Whatever the nesting, the matrix is quantifier-free and extraction cannot panic. */
  lemma OneShape(f: Formula, threshold: nat, n: SymbolId)
    requires Lowered(f, n)
    ensures var r := ClausifyOne(f, threshold, n);
      r.clauses.Clauses? && ClausesBelow(r.clauses.clauses, r.next)
    ensures var sk := Skolem(ToNnf(f), [], n); IsMatrix(Strip(sk.0)) && SymsBelow(Strip(sk.0), sk.1)
  {
    var sk := Skolem(ToNnf(f), [], n);
    NnfHygienic(f, n);
    SkolemShape(ToNnf(f), [], n);
    StripShape(sk.0, sk.1);
    var s := Strip(sk.0);
    var c := MatrixCnf(s, threshold, sk.1);
    if HasAndUnderOr(s) { ToCnfDefinitionalShape(s, threshold, sk.1); } else { ToCnfShape(s, sk.1); }
    ExtractTotal(c.formula);
    ExtractBelow(c.formula, c.next);
  }

  lemma OneStrippable(f: Formula, n: SymbolId)
    requires Clausifiable(f, n)
    ensures Strippable(Skolem(ToNnf(f), [], n).0)
  {
    NnfHygienic(f, n);
    NnfReady(f, n);
    SkolemShape(ToNnf(f), [], n);
  }

  /** Every model of the clauses is a model of the formula, whatever the nesting. */
  lemma OneSound<D(!new, 00)>(m: Structure<D>, f: Formula, threshold: nat, n: SymbolId)
    requires Lowered(f, n)
    requires ClausifyOne(f, threshold, n).clauses.Clauses? && Models(m, ClausifyOne(f, threshold, n).clauses.clauses)
    ensures Valid(m, f)
  {
    var sk := Skolem(ToNnf(f), [], n);
    OneShape(f, threshold, n);
    var s := Strip(sk.0);
    var c := MatrixCnf(s, threshold, sk.1);
    forall e: Env<D> ensures Holds(m, e, s) {
      assert ClausesHold(m, e, Extract(c.formula).clauses);
      ExtractMeans(m, e, c.formula);
      if HasAndUnderOr(s) { TseitinCorrect<D>(s, threshold, sk.1); } else { ToCnfHolds(m, e, s); }
    }
    NnfHygienic(f, n);
    forall e: Env<D> ensures Holds(m, e, f) {
      NnfMeaning(m, e, f, false);
      if !Holds(m, e, ToNnf(f)) { var e2 := SkolemRefutes(m, e, ToNnf(f), [], n); }
    }
  }

  /** Every model of the formula extends to the fresh symbols as a model of the clauses. */
  lemma OneComplete<D(!new, 00)>(m: Structure<D>, f: Formula, threshold: nat, n: SymbolId) returns (m2: Structure<D>)
    requires Clausifiable(f, n) && Valid(m, f)
    ensures AgreeBelow(m, m2, n)
    ensures var r := ClausifyOne(f, threshold, n); r.clauses.Clauses? && Models(m2, r.clauses.clauses)
  {
    var sk := Skolem(ToNnf(f), [], n);
    NnfReady(f, n);
    OneShape(f, threshold, n);
    OneStrippable(f, n);
    var s := Strip(sk.0);
    var c := MatrixCnf(s, threshold, sk.1);
    var m1 := SkolemComplete(m, ToNnf(f), [], n);
    forall e: Env<D> ensures Holds(m1, e, sk.0) { NnfMeaning(m, e, f, false); }
    StripCorrect(m1, sk.0);
    if HasAndUnderOr(s) {
      TseitinCorrect<D>(s, threshold, sk.1);
      assert Expandable(m1, sk.1, s, c.formula);
      m2 :| Expands(m1, m2, sk.1, s, c.formula);
    } else {
      m2 := m1;
    }
    forall e: Env<D> ensures ClausesHold(m2, e, Extract(c.formula).clauses) {
      assert Holds(m1, e, s);
      if !HasAndUnderOr(s) { ToCnfHolds(m2, e, s); }
      ExtractMeans(m2, e, c.formula);
    }
  }

  // ----- the definitions

  lemma {:induction false} CloseShape(vars: seq<VarId>, f: Formula, n: SymbolId)
    requires forall i, j :: 0 <= i < j < |vars| ==> vars[i] < vars[j]
    requires Distinct(f) && (forall x :: x in vars ==> x !in BoundVars(f))
    ensures Distinct(Close(vars, f)) && Shallow(Close(vars, f), false) == Shallow(f, false)
    ensures BoundVars(Close(vars, f)) == BoundVars(f) + (set x | x in vars)
    ensures FreeVars(Close(vars, f)) == FreeVars(f) - (set x | x in vars)
    ensures SymsBelow(f, n) ==> SymsBelow(Close(vars, f), n)
  {
    if vars != [] {
      CloseShape(vars[1..], f, n);
      assert (set x | x in vars) == {vars[0]} + (set x | x in vars[1..]);
    }
  }

  lemma {:induction false} CloseValid<D(!new)>(m: Structure<D>, vars: seq<VarId>, f: Formula)
    ensures Valid(m, Close(vars, f)) <==> Valid(m, f)
  {
    if vars != [] {
      CloseValid(m, vars[1..], f);
      var v, g := vars[0], Close(vars[1..], f);
      if Valid(m, Forall(v, g)) {
        forall e: Env<D> ensures Holds(m, e, g) {
          assert Holds(m, e, Forall(v, g));
          assert Holds(m, Upd(e, v, e(v)), g);
          HoldsAgree(m, m, Upd(e, v, e(v)), e, g, 0);
        }
      }
      if Valid(m, g) {
        forall e: Env<D> ensures Holds(m, e, Forall(v, g)) {
          forall d: D ensures Holds(m, Upd(e, v, d), g) {}
        }
      }
    }
  }

  /** Each closed definition is itself in the shape the pipeline needs. */
  ghost predicate DefsLowered(defs: seq<IffDef>, n: SymbolId) {
    forall i :: 0 <= i < |defs| ==> Lowered(ClosedDefinition(defs[i]), n)
  }

  lemma {:induction false} OrderedAt(defs: seq<IffDef>, n: SymbolId, k: SymbolId, i: nat)
    requires Ordered(defs, n, k) && i < |defs|
    ensures n <= defs[i].sym < k && SymsBelow(defs[i].rhs, defs[i].sym)
    ensures forall x :: x in FreeVars(defs[i].rhs) <==> x in defs[i].vars
    decreases defs
  {
    if i > 0 { OrderedAt(defs[1..], defs[0].sym + 1, k, i - 1); }
  }

  lemma PiecesLowered(f: Formula, threshold: nat, n: SymbolId)
    requires Lowered(f, n)
    ensures var r := Rename(f, threshold, n);
      Lowered(r.formula, r.next) && DefsLowered(r.defs, r.next)
  {
    var r := Rename(f, threshold, n);
    RenameShape(f, threshold, n);
    forall i | 0 <= i < |r.defs| ensures Lowered(ClosedDefinition(r.defs[i]), r.next) {
      var d := r.defs[i];
      OrderedAt(r.defs, n, r.next, i);
      SymsMono(d.rhs, d.sym, r.next);
      VarTermsShape(d.vars);
      assert FreeVars(d.Biconditional()) == FreeVars(d.rhs);
      assert SymsBelow(d.Biconditional(), r.next) by {
        forall j | 0 <= j < |d.vars| ensures TermSymsBelow(VarTerms(d.vars)[j], r.next) {}
      }
      CloseShape(Sorted(FreeVars(d.Biconditional())), d.Biconditional(), r.next);
    }
  }

  /** It is enough that no existential variable of the input itself is deep. */
  lemma ShallowPieces(f: Formula, n: SymbolId)
    requires Clausifiable(f, n)
    ensures PiecesShallow(f, n)
  {
    var r := Rename(f, DEFAULT_RENAMING_THRESHOLD, n);
    RenameKeeps(f, DEFAULT_RENAMING_THRESHOLD, n);
    RenameShape(f, DEFAULT_RENAMING_THRESHOLD, n);
    forall i | 0 <= i < |r.defs| ensures Shallow(ClosedDefinition(r.defs[i]), false) {
      var d := r.defs[i];
      assert DefKept(d, f);
      DefinitionVars(d);
      CloseShape(Sorted(FreeVars(d.Biconditional())), d.Biconditional(), r.next);
    }
  }

  lemma OneClosedExact(f: Formula, n: SymbolId)
    requires Lowered(f, n)
    ensures Closed(Skolem(ToNnf(f), [], n).0) <==> Shallow(f, false)
  {
    NnfShape(f, false, n);
    NnfShallow(f, false);
    SkolemClosedExact(ToNnf(f), n);
  }

  /** The condition is exact: it holds if and only if Skolemization eliminates every
      existential variable of everything the pipeline gives it. */
  lemma PiecesCloseExact(f: Formula, n: SymbolId)
    requires Lowered(f, n)
    ensures PiecesShallow(f, n) <==> PiecesClose(f, n)
  {
    var r := Rename(f, DEFAULT_RENAMING_THRESHOLD, n);
    PiecesLowered(f, DEFAULT_RENAMING_THRESHOLD, n);
    forall k: SymbolId | r.next <= k
      ensures Closed(Skolem(ToNnf(r.formula), [], k).0) <==> Shallow(r.formula, false)
    {
      SymsMono(r.formula, r.next, k);
      OneClosedExact(r.formula, k);
    }
    forall i, k: SymbolId | 0 <= i < |r.defs| && r.next <= k
      ensures Closed(Skolem(ToNnf(ClosedDefinition(r.defs[i])), [], k).0) <==>
        Shallow(ClosedDefinition(r.defs[i]), false)
    {
      SymsMono(ClosedDefinition(r.defs[i]), r.next, k);
      OneClosedExact(ClosedDefinition(r.defs[i]), k);
    }
    if PiecesClose(f, n) {
      assert Closed(Skolem(ToNnf(r.formula), [], r.next).0);
      forall i | 0 <= i < |r.defs| ensures Shallow(ClosedDefinition(r.defs[i]), false) {
        assert Closed(Skolem(ToNnf(ClosedDefinition(r.defs[i])), [], r.next).0);
      }
    }
  }

  lemma {:induction false} DefsSound<D(!new, 00)>(m: Structure<D>, defs: seq<IffDef>, n: SymbolId)
    requires DefsLowered(defs, n)
    ensures ClausifyDefs(defs, n).clauses.Clauses?
    ensures Models(m, ClausifyDefs(defs, n).clauses.clauses) ==> DefsTrue(m, defs)
  {
    if defs != [] {
      var d := ClosedDefinition(defs[0]);
      var x := ClausifyOne(d, DEFAULT_RENAMING_THRESHOLD, n);
      DefsLater(defs, n, x.next);
      OneShape(d, DEFAULT_RENAMING_THRESHOLD, n);
      DefsSound(m, defs[1..], x.next);
      var y := ClausifyDefs(defs[1..], x.next);
      if Models(m, x.clauses.clauses + y.clauses.clauses) {
        ModelsSplit(m, x.clauses.clauses, y.clauses.clauses);
        OneSound(m, d, DEFAULT_RENAMING_THRESHOLD, n);
        CloseValid(m, Sorted(FreeVars(defs[0].Biconditional())), defs[0].Biconditional());
      }
    }
  }

  lemma DefsLater(defs: seq<IffDef>, n: SymbolId, k: SymbolId)
    requires DefsLowered(defs, n) && n <= k
    ensures DefsLowered(defs, k) && (defs != [] ==> DefsLowered(defs[1..], k))
  {
    forall i | 0 <= i < |defs| ensures Lowered(ClosedDefinition(defs[i]), k) {
      SymsMono(ClosedDefinition(defs[i]), n, k);
    }
  }

  lemma ModelsSplit<D(!new)>(m: Structure<D>, p: seq<Clause>, q: seq<Clause>)
    ensures Models(m, p + q) <==> Models(m, p) && Models(m, q)
  {
    forall e: Env<D> ensures ClausesHold(m, e, p + q) == (ClausesHold(m, e, p) && ClausesHold(m, e, q)) {
      ClausesSplit(m, e, p, q);
    }
  }

  lemma {:induction false} DefsComplete<D(!new, 00)>(m: Structure<D>, defs: seq<IffDef>, n: SymbolId)
    returns (m2: Structure<D>)
    requires DefsLowered(defs, n) && DefsShallow(defs) && DefsTrue(m, defs)
    ensures AgreeBelow(m, m2, n)
    ensures var r := ClausifyDefs(defs, n); r.clauses.Clauses? && Models(m2, r.clauses.clauses)
    decreases defs
  {
    if defs == [] { return m; }
    var d := ClosedDefinition(defs[0]);
    var x := ClausifyOne(d, DEFAULT_RENAMING_THRESHOLD, n);
    var rest := defs[1..];
    CloseValid(m, Sorted(FreeVars(defs[0].Biconditional())), defs[0].Biconditional());
    OneShape(d, DEFAULT_RENAMING_THRESHOLD, n);
    var m1 := OneComplete(m, d, DEFAULT_RENAMING_THRESHOLD, n);
    DefsLater(defs, n, x.next);
    forall i | 0 <= i < |rest| ensures Valid(m1, rest[i].Biconditional()) {
      var c := rest[i].Biconditional();
      CloseValid(m, Sorted(FreeVars(c)), c);
      CloseValid(m1, Sorted(FreeVars(c)), c);
      assert rest[i] == defs[i + 1];
      forall e: Env<D> ensures Holds(m1, e, ClosedDefinition(rest[i])) {
        HoldsAgree(m, m1, e, e, ClosedDefinition(rest[i]), n);
      }
    }
    m2 := DefsComplete(m1, rest, x.next);
    ClausesAgree(m1, m2, x.clauses.clauses, x.next);
    ModelsSplit(m2, x.clauses.clauses, ClausifyDefs(rest, x.next).clauses.clauses);
  }

  // ----- end to end

  lemma ClausifySound<D(!new, 00)>(m: Structure<D>, f: Formula, n: SymbolId)
    requires Lowered(f, n)
    ensures Clausify(f, n).Clauses?
    ensures Models(m, Clausify(f, n).clauses) ==> Valid(m, f)
  {
    var ren := Rename(f, DEFAULT_RENAMING_THRESHOLD, n);
    var main := ClausifyOne(ren.formula, 1, ren.next);
    PiecesLowered(f, DEFAULT_RENAMING_THRESHOLD, n);
    OneShape(ren.formula, 1, ren.next);
    DefsLater(ren.defs, ren.next, main.next);
    DefsSound(m, ren.defs, main.next);
    var defs := ClausifyDefs(ren.defs, main.next);
    var all := main.clauses.clauses + defs.clauses.clauses;
    if Models(m, Clausify(f, n).clauses) {
      forall e: Env<D> ensures ClausesHold(m, e, all) { SimplifyHolds(m, e, all); }
      ModelsSplit(m, main.clauses.clauses, defs.clauses.clauses);
      OneSound(m, ren.formula, 1, ren.next);
      RenameSame(m, f, DEFAULT_RENAMING_THRESHOLD, n);
    }
  }

  lemma ClausifyComplete<D(!new, 00)>(m: Structure<D>, f: Formula, n: SymbolId) returns (m2: Structure<D>)
    requires Lowered(f, n) && PiecesShallow(f, n) && Valid(m, f)
    ensures AgreeBelow(m, m2, n)
    ensures Clausify(f, n).Clauses? && Models(m2, Clausify(f, n).clauses)
  {
    var ren := Rename(f, DEFAULT_RENAMING_THRESHOLD, n);
    var main := ClausifyOne(ren.formula, 1, ren.next);
    PiecesLowered(f, DEFAULT_RENAMING_THRESHOLD, n);
    RenameShape(f, DEFAULT_RENAMING_THRESHOLD, n);
    OneShape(ren.formula, 1, ren.next);
    var m0 := ExtendDefs(m, ren.defs, n, ren.next);
    RenameSame(m0, f, DEFAULT_RENAMING_THRESHOLD, n);
    forall e: Env<D> ensures Holds(m0, e, ren.formula) { HoldsAgree(m, m0, e, e, f, n); }
    var m1 := OneComplete(m0, ren.formula, 1, ren.next);
    forall i | 0 <= i < |ren.defs|
      ensures Valid(m1, ren.defs[i].Biconditional())
    {
      var c := ren.defs[i].Biconditional();
      CloseValid(m0, Sorted(FreeVars(c)), c);
      CloseValid(m1, Sorted(FreeVars(c)), c);
      forall e: Env<D> ensures Holds(m1, e, ClosedDefinition(ren.defs[i])) {
        HoldsAgree(m0, m1, e, e, ClosedDefinition(ren.defs[i]), ren.next);
      }
    }
    DefsLater(ren.defs, ren.next, main.next);
    m2 := DefsComplete(m1, ren.defs, main.next);
    ClausesAgree(m1, m2, main.clauses.clauses, main.next);
    var defs := ClausifyDefs(ren.defs, main.next);
    ModelsSplit(m2, main.clauses.clauses, defs.clauses.clauses);
    forall e: Env<D> ensures ClausesHold(m2, e, Clausify(f, n).clauses) {
      SimplifyHolds(m2, e, main.clauses.clauses + defs.clauses.clauses);
    }
  }

  /** End to end, over every domain. For every closed input with distinct binders the pipeline
      does not panic and every model of the clauses is a model of the input. If no existential
      variable is deep, a model of the input needs changing on the fresh symbols only, and the
      universally closed clauses are satisfiable exactly when the input is. */
  lemma ClausifyCorrect<D(!new, 00)>(f: Formula, n: SymbolId)
    requires Lowered(f, n)
    ensures Clausify(f, n).Clauses?
    ensures forall m: Structure<D> :: Models(m, Clausify(f, n).clauses) ==> Valid(m, f)
    ensures PiecesShallow(f, n) ==>
      forall m: Structure<D> :: Valid(m, f) ==> ModelExtends(m, n, Clausify(f, n).clauses)
    ensures PiecesShallow(f, n) ==>
      ((exists m: Structure<D> :: Valid(m, f)) <==> (exists m: Structure<D> :: Models(m, Clausify(f, n).clauses)))
  {
    ClausifySound(Structure((s: SymbolId, ds: seq<D>) => Anything<D>(), (s: SymbolId, ds: seq<D>) => true), f, n);
    forall m: Structure<D> ensures Clausify(f, n).Clauses? && (Models(m, Clausify(f, n).clauses) ==> Valid(m, f)) {
      ClausifySound(m, f, n);
    }
    if PiecesShallow(f, n) {
      forall m: Structure<D> | Valid(m, f) ensures ModelExtends(m, n, Clausify(f, n).clauses) {
        var m2 := ClausifyComplete(m, f, n);
      }
    }
  }

  // ----- how many clauses come out

  lemma {:induction false} CollapseCalm(f: Formula, threshold: nat)
    requires !ContainsAnd(f)
    ensures Calm(f, threshold)
    decreases f
  {
    if f.Or? { forall i | 0 <= i < |f.parts| ensures Calm(f.parts[i],
      threshold) { CollapseCalm(f.parts[i], threshold); } }
  }

  lemma {:induction false} FlatCalm(f: Formula, threshold: nat)
    requires !HasAndUnderOr(f)
    ensures Calm(f, threshold)
    decreases f
  {
    if f.Or? || f.And? {
      forall i | 0 <= i < |f.parts| ensures Calm(f.parts[i], threshold) {
        if f.Or? { CollapseCalm(f.parts[i], threshold); } else { FlatCalm(f.parts[i], threshold); }
      }
    }
  }

  /** A matrix gives at most `max(1, threshold)` to the power of its width clauses for each node,
      so at threshold 1 no more clauses than nodes. A symbol is drawn exactly when some
      disjunction with a conjunction among its parts has more clauses than the threshold. */
  lemma MatrixBound(f: Formula, threshold: nat, n: SymbolId, w: nat)
    requires IsMatrix(f) && SymsBelow(f, n) && Width(f) <= w && threshold < USIZE_MAX
    ensures var r := MatrixCnf(f, threshold, n);
      && Conjuncts(r.formula) <= Power(Max(1, threshold), w) * Size(f)
      && (threshold <= 1 ==> Conjuncts(r.formula) <= Size(f))
      && r.next == n + |r.defs|
      && (r.next == n <==> Calm(f, threshold))
      && (r.next == n ==> Conjuncts(r.formula) == Count(f, false))
  {
    NameCount(f, threshold, n, w);
    NameDraws(f, threshold, n);
    ToCnfConjuncts(f, n);
    DefinitionalConjuncts(f, threshold, n);
    if !HasAndUnderOr(f) { FlatCalm(f, threshold); }
    if threshold <= 1 { PowerOne(w); }
  }

  /** The bound is no multiple of the size at the default threshold: `Wide(p, k)` has `1 + 10k`
      nodes and `8^k` clauses, and none of its disjunctions is ever named. */
  lemma WideExplodes(p: Atom, k: nat, n: SymbolId)
    requires AtomSymsBelow(p, n)
    ensures IsMatrix(Wide(p, k)) && SymsBelow(Wide(p, k), n) && Size(Wide(p, k)) == 1 + 10 * k
    ensures Conjuncts(MatrixCnf(Wide(p, k), DEFAULT_RENAMING_THRESHOLD, n).formula) == Power(8, k)
    ensures Width(Wide(p, k)) == Max(1, k)
  {
    WideShape(p, k);
    EightBelow(p, n);
    CopiesAt(Eight(p), k);
    MatrixBound(Wide(p, k), DEFAULT_RENAMING_THRESHOLD, n, Width(Wide(p, k)));
  }

  lemma {:induction false} ExtractAllCount(fs: seq<Formula>)
    requires (forall i :: 0 <= i < |fs| ==> IsClause(fs[i])) && ExtractAll(fs).Clauses?
    ensures |ExtractAll(fs).clauses| <= |fs|
  {
    if fs != [] { ExtractAllCount(fs[1..]); }
  }

  lemma ExtractCount(f: Formula)
    requires IsCnf(f) && Extract(f).Clauses?
    ensures |Extract(f).clauses| <= Conjuncts(f)
  {
    if f.And? { ExtractAllCount(f.parts); }
  }

  /** The clauses of one formula against the nodes of its NNF. */
  lemma OneBound(f: Formula, threshold: nat, n: SymbolId, w: nat)
    requires Lowered(f, n) && Width(ToNnf(f)) <= w && threshold < USIZE_MAX
    ensures var r := ClausifyOne(f, threshold, n).clauses;
      && r.Clauses?
      && |r.clauses| <= Power(Max(1, threshold), w) * Size(ToNnf(f))
      && (threshold <= 1 ==> |r.clauses| <= Size(ToNnf(f)))
  {
    var sk := Skolem(ToNnf(f), [], n);
    var s := Strip(sk.0);
    var c := MatrixCnf(s, threshold, sk.1);
    OneShape(f, threshold, n);
    MatrixFits(ToNnf(f), n);
    MatrixBound(s, threshold, sk.1, w);
    if HasAndUnderOr(s) { ToCnfDefinitionalShape(s, threshold, sk.1); } else { ToCnfShape(s, sk.1); }
    ExtractCount(c.formula);
    PowerMono(Max(1, threshold), 0, w);
    MulMonoBoth(Power(Max(1, threshold), w), Size(s), Power(Max(1, threshold), w), Size(ToNnf(f)));
  }

  /** The largest width of a definition as it is clausified. */
  function DefsWidth(defs: seq<IffDef>): nat {
    if defs == [] then 0 else Max(Width(ToNnf(ClosedDefinition(defs[0]))), DefsWidth(defs[1..]))
  }

  lemma {:induction false} DefsBound(defs: seq<IffDef>, n: SymbolId, w: nat)
    requires DefsLowered(defs, n) && DefsWidth(defs) <= w
    ensures var r := ClausifyDefs(defs, n).clauses;
      r.Clauses? && |r.clauses| <= Times(Power(DEFAULT_RENAMING_THRESHOLD, w), DefsNnfSize(defs))
    decreases defs
  {
    if defs != [] {
      var d := ClosedDefinition(defs[0]);
      var x := ClausifyOne(d, DEFAULT_RENAMING_THRESHOLD, n);
      DefsStep(defs, n);
      OneBound(d, DEFAULT_RENAMING_THRESHOLD, n, w);
      DefsBound(defs[1..], x.next, w);
      BoundCons(Power(DEFAULT_RENAMING_THRESHOLD, w), defs, x, ClausifyDefs(defs[1..], x.next));
    }
  }

  lemma BoundCons(p: nat, defs: seq<IffDef>, x: Produced, y: Produced)
    requires defs != [] && x.clauses.Clauses? && y.clauses.Clauses?
    requires |x.clauses.clauses| <= Times(p, Size(ToNnf(ClosedDefinition(defs[0]))))
    requires |y.clauses.clauses| <= Times(p, DefsNnfSize(defs[1..]))
    ensures |x.clauses.clauses + y.clauses.clauses| <= Times(p, DefsNnfSize(defs))
  {
    Within(p, Size(ToNnf(ClosedDefinition(defs[0]))), DefsNnfSize(defs[1..]), DefsNnfSize(defs),
      |x.clauses.clauses|, |y.clauses.clauses|);
  }

  lemma {:induction false} SimplifyShrinks(cs: seq<Clause>)
    ensures |Simplify(cs)| <= |cs|
  {
    if cs != [] { SimplifyShrinks(cs[1..]); }
  }

  /** What the pipeline returns against the size of its input: one clause for each node of the NNF
      of the renamed formula, and `8^w` for each node of the definitions when none is wider than
      `w`. Without equivalences there are at most twice as many clauses as nodes. */
  lemma ClausifyBound(f: Formula, n: SymbolId)
    requires Lowered(f, n)
    ensures Clausify(f, n).Clauses?
    ensures var r, cs := Rename(f, DEFAULT_RENAMING_THRESHOLD, n), Clausify(f, n).clauses;
      var p := Power(DEFAULT_RENAMING_THRESHOLD, DefsWidth(r.defs));
      && |cs| <= Size(ToNnf(r.formula)) + Times(p, DefsNnfSize(r.defs))
      && |cs| <= Times(p, 22 * Size(f) + Times(2 * IffCount(f), |FreeVars(f) + BoundVars(f)|))
    ensures !HasIff(f) ==> |Clausify(f, n).clauses| <= 2 * Size(f)
  {
    ClausifyCount(f, n);
    ClausifyLinear(f, n);
    if !HasIff(f) { PlainSize(f, n); }
  }

  lemma PlainSize(f: Formula, n: SymbolId)
    requires !HasIff(f)
    ensures var r := Rename(f, DEFAULT_RENAMING_THRESHOLD, n);
      Size(ToNnf(r.formula)) <= 2 * Size(f) && r.defs == []
        && Times(Power(DEFAULT_RENAMING_THRESHOLD, DefsWidth(r.defs)), DefsNnfSize(r.defs)) == 0
  {
    RenameNothing(f, DEFAULT_RENAMING_THRESHOLD, n);
    NnfSize(f, false, 2);
  }

  lemma ClausifyLinear(f: Formula, n: SymbolId)
    ensures var r := Rename(f, DEFAULT_RENAMING_THRESHOLD, n);
      var p := Power(DEFAULT_RENAMING_THRESHOLD, DefsWidth(r.defs));
      Size(ToNnf(r.formula)) + Times(p, DefsNnfSize(r.defs)) <=
        Times(p, 22 * Size(f) + Times(2 * IffCount(f), |FreeVars(f) + BoundVars(f)|))
  {
    var ren := Rename(f, DEFAULT_RENAMING_THRESHOLD, n);
    RenameLinear(f, DEFAULT_RENAMING_THRESHOLD, n);
    PowerMono(DEFAULT_RENAMING_THRESHOLD, 0, DefsWidth(ren.defs));
    Multiple(Power(DEFAULT_RENAMING_THRESHOLD, DefsWidth(ren.defs)), Size(ToNnf(ren.formula)), DefsNnfSize(ren.defs),
      22 * Size(f) + Times(2 * IffCount(f), |FreeVars(f) + BoundVars(f)|));
  }

  lemma ClausifyCount(f: Formula, n: SymbolId)
    requires Lowered(f, n)
    ensures Clausify(f, n).Clauses?
    ensures var r := Rename(f, DEFAULT_RENAMING_THRESHOLD, n);
      |Clausify(f, n).clauses| <=
        Size(ToNnf(r.formula)) + Times(Power(DEFAULT_RENAMING_THRESHOLD, DefsWidth(r.defs)), DefsNnfSize(r.defs))
  {
    var ren := Rename(f, DEFAULT_RENAMING_THRESHOLD, n);
    var main := ClausifyOne(ren.formula, 1, ren.next);
    var defs := ClausifyDefs(ren.defs, main.next);
    PiecesLowered(f, DEFAULT_RENAMING_THRESHOLD, n);
    OneBound(ren.formula, 1, ren.next, Width(ToNnf(ren.formula)));
    DefsLater(ren.defs, ren.next, main.next);
    DefsBound(ren.defs, main.next, DefsWidth(ren.defs));
    SimplifyShrinks(main.clauses.clauses + defs.clauses.clauses);
  }

  lemma Multiple(p: nat, a: nat, b: nat, c: nat)
    requires p >= 1 && a + b <= c
    ensures a + Times(p, b) <= Times(p, c)
  {
    MulMonoBoth(p, a + b, p, c);
    MulMonoBoth(1, a, p, a);
  }

  // ----- the pipeline as it runs, every pass in its own mutable context

  /** NNF through the cache, Skolemization, stripping, CNF and extraction of one closed formula. */
  method RunOne(f: Formula, threshold: nat, symbols: SymbolId) returns (cs: seq<Clause>, next: SymbolId)
    requires Lowered(f, symbols)
    ensures Produced(Clauses(cs), next) == ClausifyOne(f, threshold, symbols)
    ensures threshold < USIZE_MAX ==> |cs| <= Power(Max(1, threshold), Width(ToNnf(f))) * Size(ToNnf(f))
    ensures threshold <= 1 ==> |cs| <= Size(ToNnf(f))
    ensures var sk := Skolem(ToNnf(f), [], symbols);
      threshold < USIZE_MAX ==> (next == sk.1 <==> Calm(Strip(sk.0), threshold))
  {
    OneShape(f, threshold, symbols);
    if threshold < USIZE_MAX {
      ghost var sk := Skolem(ToNnf(f), [], symbols);
      OneBound(f, threshold, symbols, Width(ToNnf(f)));
      MatrixBound(Strip(sk.0), threshold, sk.1, Width(Strip(sk.0)));
    }
    var cache := new NnfCache();
    var nnf := cache.Convert(f, false);
    var skolem := new SkolemCtx(symbols);
    var skolemized := skolem.Skolemize(nnf);
    var stripped := Strip(skolemized);
    var cnf;
    if HasAndUnderOr(stripped) {
      var named := ConvertDefinitional(stripped, threshold, skolem.symbols);
      cnf, next := named.formula, named.next;
    } else {
      next := skolem.symbols;
      cnf := ConvertToCnf(stripped);
    }
    cs := ExtractClauses(cnf);
  }

  method ExtractClauses(f: Formula) returns (cs: seq<Clause>)
    requires Extract(f).Clauses?
    ensures cs == Extract(f).clauses
  {
    var extractor := new Extractor(0);
    extractor.ExtractRec(f);
    assert extractor.clauses[0..] == extractor.clauses;
    cs := Literals(extractor.clauses);
  }

  /** The loop over the definitions of the renaming pass. */
  method RunDefs(defs: seq<IffDef>, symbols: SymbolId) returns (cs: seq<Clause>, next: SymbolId)
    requires DefsLowered(defs, symbols)
    ensures Produced(Clauses(cs), next) == ClausifyDefs(defs, symbols)
  {
    cs, next := [], symbols;
    assert defs[0..] == defs;
    DefsTotal(defs, symbols);
    assert [] + ClausifyDefs(defs, symbols).clauses.clauses == ClausifyDefs(defs, symbols).clauses.clauses;
    for i := 0 to |defs|
      invariant symbols <= next && DefsLowered(defs[i..], next)
      invariant ClausifyDefs(defs[i..], next).clauses.Clauses?
      invariant ClausifyDefs(defs, symbols) ==
        Produced(Clauses(cs + ClausifyDefs(defs[i..], next).clauses.clauses), ClausifyDefs(defs[i..], next).next)
    {
      assert defs[i..][1..] == defs[i + 1..] && defs[i..][0] == defs[i];
      DefsStep(defs[i..], next);
      ghost var rest := ClausifyDefs(defs[i + 1..],
        ClausifyOne(ClosedDefinition(defs[i]), DEFAULT_RENAMING_THRESHOLD, next).next);
      var more, n := RunOne(ClosedDefinition(defs[i]), DEFAULT_RENAMING_THRESHOLD, next);
      ConcatAssoc(cs, more, rest.clauses.clauses);
      cs, next := cs + more, n;
    }
    assert defs[|defs|..] == [] && cs + [] == cs;
  }

  lemma DefsTotal(defs: seq<IffDef>, n: SymbolId)
    requires DefsLowered(defs, n)
    ensures ClausifyDefs(defs, n).clauses.Clauses?
  {
    DefsSound(Structure((s: SymbolId, ds: seq<int>) => 0, (s: SymbolId, ds: seq<int>) => true), defs, n);
  }

  lemma DefsStep(defs: seq<IffDef>, n: SymbolId)
    requires DefsLowered(defs, n) && defs != []
    ensures var x := ClausifyOne(ClosedDefinition(defs[0]), DEFAULT_RENAMING_THRESHOLD, n);
      var y := ClausifyDefs(defs[1..], x.next);
      && Lowered(ClosedDefinition(defs[0]), n) && x.clauses.Clauses?
      && DefsLowered(defs[1..], x.next) && y.clauses.Clauses?
      && ClausifyDefs(defs, n) == Produced(Clauses(x.clauses.clauses + y.clauses.clauses), y.next)
  {
    var d := ClosedDefinition(defs[0]);
    OneShape(d, DEFAULT_RENAMING_THRESHOLD, n);
    var x := ClausifyOne(d, DEFAULT_RENAMING_THRESHOLD, n);
    DefsLater(defs, n, x.next);
    DefsTotal(defs[1..], x.next);
  }

  /** `clausify_with_provenance`, without its provenance: it cannot panic, models of the clauses are
      models of the formula, and without deep existential variables the clauses are satisfiable
      exactly when the formula is. */
  method ClausifyFormula(f: Formula, symbols: SymbolId) returns (cs: seq<Clause>)
    requires Lowered(f, symbols)
    ensures Clausify(f, symbols) == Clauses(cs)
    ensures forall m: Structure<int> :: Models(m, cs) ==> Valid(m, f)
    ensures PiecesShallow(f, symbols) ==>
      ((exists m: Structure<int> :: Valid(m, f)) <==> (exists m: Structure<int> :: Models(m, cs)))
    ensures var r := Rename(f, DEFAULT_RENAMING_THRESHOLD, symbols);
      |cs| <= Size(ToNnf(r.formula)) +
        Times(Power(DEFAULT_RENAMING_THRESHOLD, DefsWidth(r.defs)), DefsNnfSize(r.defs))
    ensures !HasIff(f) ==> |cs| <= 2 * Size(f)
    ensures forall i :: 0 <= i < |cs| ==> !IsTautology(cs[i]) && !Repeats(cs[i])
  {
    ClausifyBound(f, symbols);
    PiecesLowered(f, DEFAULT_RENAMING_THRESHOLD, symbols);
    var renaming := new BicondCtx(symbols);
    var renamed := renaming.Traverse(f, DEFAULT_RENAMING_THRESHOLD);
    ghost var ren := Rename(f, DEFAULT_RENAMING_THRESHOLD, symbols);
    assert renaming.definitions == [] + ren.defs == ren.defs;
    var main, next := RunOne(renamed, 1, renaming.symbols);
    DefsLater(ren.defs, ren.next, next);
    var defs, _ := RunDefs(renaming.definitions, next);
    cs := Simplify(main + defs);
    SimplifyExact(main + defs);
    ClausifyCorrect<int>(f, symbols);
  }
}
