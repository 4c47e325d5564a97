/** The nesting cut-off of substitution matters: one level beyond it, clausification turns a
    satisfiable formula into an unsatisfiable clause set. */
module DepthLimit {
  import opened Wrappers
  import opened Fol
  import opened Substitution
  import opened NormalForm
  import opened Skolemization
  import opened Stripping
  import opened Distribution
  import opened IffRenaming
  import opened Extraction
  import opened Clausification

  /** `f(f(...f(v)...))` with `k` applications of symbol 0. */
  function Tower(k: nat, v: VarId): Term {
    if k == 0 then Var(v) else App(0, [Tower(k - 1, v)])
  }

  function P(t: Term): Formula { AtomF(Pred(1, [t])) }

  /** `(exists x. p(f^k(x))) & (exists y. ~p(f^k(y)))`. */
  function TwoValued(k: nat): Formula {
    And([Exists(0, P(Tower(k, 0))), Exists(1, Neg(P(Tower(k, 1))))])
  }

  lemma {:induction false} TowerUntouched(v: VarId, s: Term, k: nat, depth: nat)
    requires k + depth > MAX_DEPTH
    ensures ApplyTerm(v, s, Tower(k, v), depth) == Tower(k, v)
    decreases k
  {
    if depth <= MAX_DEPTH {
      TowerUntouched(v, s, k - 1, depth + 1);
      assert ApplyTerm(v, s, Tower(k, v), depth).args == Tower(k, v).args;
    }
  }

  lemma {:induction false} TowerVal<D(!new)>(m: Structure<D>, e: Env<D>, e2: Env<D>, k: nat, v: VarId, w: VarId)
    requires e(v) == e2(w)
    ensures Val(m, e, Tower(k, v)) == Val(m, e2, Tower(k, w))
  {
    if k > 0 {
      TowerVal(m, e, e2, k - 1, v, w);
      assert Vals(m, e, Tower(k, v).args) == Vals(m, e2, Tower(k, w).args);
    }
  }

  lemma {:induction false} TowerIdentity(m: Structure<bool>, e: Env<bool>, k: nat, v: VarId)
    requires forall s: SymbolId, ds: seq<bool> :: m.fun(s, ds) == (|ds| == 1 && ds[0])
    ensures Val(m, e, Tower(k, v)) == e(v)
  {
    if k > 0 {
      TowerIdentity(m, e, k - 1, v);
      assert Vals(m, e, Tower(k, v).args) == [e(v)];
    }
  }

  lemma TwoValuedShape(k: nat)
    ensures Closed(TwoValued(k)) && Distinct(TwoValued(k))
  {
    TowerVars(k, 0);
    TowerVars(k, 1);
    var fs := TwoValued(k).parts;
    assert fs[0] == Exists(0, P(Tower(k, 0))) && fs[1] == Exists(1, Neg(P(Tower(k, 1))));
    assert [Tower(k, 0)][0] == Tower(k, 0) && [Tower(k, 1)][0] == Tower(k, 1);
    assert FreeVars(P(Tower(k, 0))) == {0} && FreeVars(P(Tower(k, 1))) == {1};
    assert FreeVars(Neg(P(Tower(k, 1)))) == {1};
    assert BoundVars(P(Tower(k, 1))) == {};
    assert BoundVars(fs[0]) == {0} && BoundVars(fs[1]) == {1};
  }

  /** The input is satisfiable at every nesting depth. */
  lemma TwoValuedSatisfiable(k: nat)
    ensures Closed(TwoValued(k)) && Distinct(TwoValued(k))
    ensures exists m: Structure<bool> :: Valid(m, TwoValued(k))
  {
    TwoValuedShape(k);
    var first := (s: SymbolId, ds: seq<bool>) => |ds| == 1 && ds[0];
    var m := Structure(first, first);
    forall e: Env<bool> ensures Holds(m, e, TwoValued(k)) {
      TowerIdentity(m, Upd(e, 0, true), k, 0);
      assert Vals(m, Upd(e, 0, true), [Tower(k, 0)]) == [true];
      assert Holds(m, Upd(e, 0, true), P(Tower(k, 0)));
      TowerIdentity(m, Upd(e, 1, false), k, 1);
      assert Vals(m, Upd(e, 1, false), [Tower(k, 1)]) == [false];
      assert Holds(m, Upd(e, 1, false), Neg(P(Tower(k, 1))));
    }
    assert Valid(m, TwoValued(k));
  }

  lemma {:induction false} TowerVars(k: nat, v: VarId)
    ensures TermVars(Tower(k, v)) == {v}
  {
    if k > 0 {
      TowerVars(k - 1, v);
      assert Tower(k, v).args[0] == Tower(k - 1, v);
    }
  }

  lemma SkolemUntouched(k: nat, v: VarId, neg: bool, n: SymbolId)
    requires k > MAX_DEPTH
    ensures var b := if neg then Neg(P(Tower(k, v))) else P(Tower(k, v));
      Skolem(Exists(v, b), [], n) == (b, n + 1)
  {
    var b := if neg then Neg(P(Tower(k, v))) else P(Tower(k, v));
    var s := SkolemTerm([], b, n);
    TowerUntouched(v, s, k, 0);
    assert ApplyAtom(v, s, Pred(1, [Tower(k, v)])).args == [Tower(k, v)];
    var next := Max(Max(v, TermMaxVar(s)), MaxVar(b)) + 1;
    assert Apply(v, s, P(Tower(k, v)), next).0 == P(Tower(k, v));
    assert ApplySingleton(v, s, b) == b;
    if neg { assert Skolem(P(Tower(k, v)), [], n + 1) == (P(Tower(k, v)), n + 1); }
  }

  /** Beyond the cut-off the existential variables survive as free variables. */
  lemma ClausesOfTwoValued(k: nat)
    requires k > MAX_DEPTH
    ensures Clausify(TwoValued(k), 2) ==
      Clauses([[Literal(true, Pred(1, [Tower(k, 0)]))], [Literal(false, Pred(1, [Tower(k, 1)]))]])
  {
    var x, y := P(Tower(k, 0)), Neg(P(Tower(k, 1)));
    var f, fs := TwoValued(k), TwoValued(k).parts;
    assert fs == [Exists(0, x), Exists(1, y)] && fs[1..] == [Exists(1, y)] && fs[1..][1..] == [];
    NothingToRename(x, y);
    assert Nnf(x, false) == x && Nnf(P(Tower(k, 1)), true) == y && Nnf(y, false) == y;
    assert Nnf(fs[0], false) == fs[0] && Nnf(fs[1], false) == fs[1];
    assert NnfAll(fs, false) == fs;
    assert ToNnf(f) == f;
    SkolemUntouched(k, 0, false, 2);
    SkolemUntouched(k, 1, true, 3);
    var g := And([x, y]);
    assert SkolemAll([], [], 4) == ([], 4);
    assert SkolemAll([Exists(1, y)], [], 3) == ([y] + [], 4);
    assert [y] + [] == [y];
    assert SkolemAll(fs, [], 2) == ([x] + SkolemAll(fs[1..], [], 3).0, 4);
    assert [x] + [y] == [x, y];
    assert Skolem(f, [], 2) == (g, 4);
    StripsToItself(x, y);
    CnfOfTwo(x, y);
    ExtractTwo(Pred(1, [Tower(k, 0)]), Pred(1, [Tower(k, 1)]));
    assert !HasAndUnderOr(g);
    var cs := [[Literal(true, Pred(1, [Tower(k, 0)]))], [Literal(false, Pred(1, [Tower(k, 1)]))]];
    assert ClausifyOne(f, 1, 2).clauses == Clauses(cs);
    assert cs + [] == cs;
    SimplifyTwo(cs[0][0], cs[1][0]);
    DistinctTowers(k);
  }

  lemma DistinctTowers(k: nat)
    ensures Tower(k, 0) != Tower(k, 1)
  {
    TowerVars(k, 0);
    TowerVars(k, 1);
  }

  lemma NothingToRename(x: Formula, y: Formula)
    requires IsLiteral(x) && IsLiteral(y)
    ensures forall t, n ::
      Rename(And([Exists(0, x), Exists(1, y)]), t, n) == Renamed(And([Exists(0, x), Exists(1, y)]), [], n)
  {
    forall t, n
      ensures Rename(And([Exists(0, x), Exists(1, y)]), t, n) == Renamed(And([Exists(0, x), Exists(1, y)]), [], n)
    {
      var fs := [Exists(0, x), Exists(1, y)];
      LiteralUnrenamed(x, t, n);
      LiteralUnrenamed(y, t, n);
      assert fs[1..] == [Exists(1, y)] && fs[1..][1..] == [];
      assert Rename(fs[0], t, n) == Renamed(fs[0], [], n) && Rename(fs[1], t, n) == Renamed(fs[1], [], n);
      assert RenameAll([], t, n) == RenamedAll([], [], n);
      assert RenameAll([Exists(1, y)], t, n) == RenamedAll([Exists(1, y)] + [], [] + [], n);
      assert RenameAll(fs, t, n) == RenamedAll([Exists(0, x)] + [Exists(1, y)], [] + [], n);
    }
  }

  lemma LiteralUnrenamed(x: Formula, t: nat, n: SymbolId)
    requires IsLiteral(x)
    ensures Rename(x, t, n) == Renamed(x, [], n)
  {
    if x.Neg? { assert Rename(x.inner, t, n) == Renamed(x.inner, [], n); }
  }

  lemma StripsToItself(x: Formula, y: Formula)
    requires IsLiteral(x) && IsLiteral(y)
    ensures Strip(And([x, y])) == And([x, y])
  {
    assert (x.Neg? ==> Strip(x.inner) == x.inner) && (y.Neg? ==> Strip(y.inner) == y.inner);
    assert Strip(And([x, y])).parts == [x, y];
  }

  lemma CnfOfTwo(x: Formula, y: Formula)
    requires IsLiteral(x) && IsLiteral(y)
    ensures ToCnf(And([x, y])) == And([x, y])
  {
    var fs := [x, y];
    assert (x.Neg? ==> Flatten(x.inner) == x.inner) && (y.Neg? ==> Flatten(y.inner) == y.inner);
    var gs := seq(|fs|, i requires 0 <= i < |fs| => Flatten(fs[i]));
    var hs := seq(|fs|, i requires 0 <= i < |fs| => Distribute(fs[i]));
    assert gs == fs && hs == fs;
    assert ConcatAnd(fs) == fs by { assert fs[1..] == [y] && [y][1..] == []; assert ConcatAnd([y]) == [y]; }
    assert Flatten(And(fs)) == And(fs);
  }

  lemma ExtractTwo(a: Atom, b: Atom)
    ensures Extract(And([AtomF(a), Neg(AtomF(b))])) == Clauses([[Literal(true, a)], [Literal(false, b)]])
  {
    var fs := [AtomF(a), Neg(AtomF(b))];
    assert fs[1..] == [Neg(AtomF(b))] && fs[1..][1..] == [];
    assert Extract(fs[0]) == Clauses([[Literal(true, a)]]) && Extract(fs[1]) == Clauses([[Literal(false, b)]]);
    assert ExtractAll([]) == Clauses([]);
    assert ExtractAll(fs[1..]) == Clauses([[Literal(false, b)]] + []);
    assert ExtractAll(fs) == Clauses([[Literal(true, a)]] + [[Literal(false, b)]]);
  }

  lemma SimplifyTwo(k: Literal, l: Literal)
    requires k.atom.Pred? && l.atom.Pred?
    ensures Simplify([[k], [l]]) == [[k], [l]]
  {
    assert Dedup([k], {}) == [k] && Dedup([l], {}) == [l];
    assert [[k], [l]][1..] == [[l]] && [[l]][1..] == [];
    assert !IsTautology([k]) && !IsTautology([l]);
    assert Simplify([[l]]) == [[l]];
  }

  /** From nesting 501 on, a satisfiable closed formula with distinct binders is turned into
      clauses that no structure satisfies; its existential variables are what `PiecesShallow`
      excludes. */
  lemma DeepNestingUnsound<D(!new, 00)>(k: nat)
    requires k > MAX_DEPTH
    ensures Lowered(TwoValued(k), 2) && !PiecesShallow(TwoValued(k), 2)
    ensures exists m: Structure<bool> :: Valid(m, TwoValued(k))
    ensures Clausify(TwoValued(k), 2).Clauses?
    ensures forall m: Structure<D> :: !Models(m, Clausify(TwoValued(k), 2).clauses)
  {
    TwoValuedSatisfiable(k);
    TwoValuedLowered(k);
    NotShallow(k);
    ClausesOfTwoValued(k);
    forall m: Structure<D> ensures !Models(m, Clausify(TwoValued(k), 2).clauses) { NoModel(m, k); }
  }

  lemma TwoValuedLowered(k: nat)
    ensures Lowered(TwoValued(k), 2)
  {
    TwoValuedShape(k);
    TowerSyms(k, 0);
    TowerSyms(k, 1);
    assert SymsBelow(TwoValued(k).parts[0], 2) && SymsBelow(TwoValued(k).parts[1], 2);
  }

  lemma {:induction false} TowerSyms(k: nat, v: VarId)
    ensures TermSymsBelow(Tower(k, v), 2)
  {
    if k > 0 { TowerSyms(k - 1, v); }
  }

  /** Otherwise the end-to-end theorem would give the clauses a model. */
  lemma NotShallow(k: nat)
    requires k > MAX_DEPTH && Lowered(TwoValued(k), 2)
    ensures !PiecesShallow(TwoValued(k), 2)
  {
    TwoValuedSatisfiable(k);
    ClausesOfTwoValued(k);
    if PiecesShallow(TwoValued(k), 2) {
      ClausifyCorrect<bool>(TwoValued(k), 2);
      var m: Structure<bool> :| Models(m, Clausify(TwoValued(k), 2).clauses);
      NoModel(m, k);
    }
  }

  lemma NoModel<D(!new, 00)>(m: Structure<D>, k: nat)
    ensures !Models(m, [[Literal(true, Pred(1, [Tower(k, 0)]))], [Literal(false, Pred(1, [Tower(k, 1)]))]])
  {
    var cs := [[Literal(true, Pred(1, [Tower(k, 0)]))], [Literal(false, Pred(1, [Tower(k, 1)]))]];
    var d := Anything<D>();
    var e: Env<D> := (x: VarId) => d;
    TowerVal(m, e, e, k, 0, 1);
    assert Vals(m, e, [Tower(k, 0)]) == Vals(m, e, [Tower(k, 1)]);
    assert ClauseHolds(m, e, cs[0]) ==> AtomHolds(m, e, Pred(1, [Tower(k, 0)]));
    assert ClauseHolds(m, e, cs[1]) ==> !AtomHolds(m, e, Pred(1, [Tower(k, 1)]));
    assert !ClausesHold(m, e, cs);
  }
}
