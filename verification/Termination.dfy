/** Demodulation with rules oriented by a reduction ordering terminates in a fully reduced clause:
    only the pass limit and the deadline can stop it earlier. */
module Termination {
  import opened Wrappers
  import opened Fol
  import opened TermOrder
  import opened Matching
  import opened Extraction
  import opened Rewriting
  import opened Descent
  import PathOrder
  import KnuthBendix

  /** A well-founded, stable order on the terms in `ok`, closed under contexts. */
  ghost predicate ReductionOrder(gt: Relation, ok: Term -> bool) {
    && (forall s, t :: gt(s, t) ==> ok(t))
    && (forall s, t, u :: gt(s, t) && gt(t, u) ==> gt(s, u))
    && (forall t: Term, i: nat :: ok(t) && t.App? && i < |t.args| ==> ok(t.args[i]))
    && (forall t: Term, i: nat, u: Term :: ok(t) && t.App? && i < |t.args| && gt(t.args[i], u) ==>
         gt(t, App(t.sym, t.args[i := u])))
    && (forall sigma: VarId -> Term, s, t :: gt(s, t) && ok(Instance(sigma, s)) ==>
         gt(Instance(sigma, s), Instance(sigma, t)))
    && (forall t :: ok(t) ==> Accessible(gt, t))
  }

  lemma KboReduces(w: SymbolConfig)
    requires KnuthBendix.Admissible(w)
    ensures ReductionOrder(KboRelation(w), _ => true)
  {
    var gt := KboRelation(w);
    forall s, t, u | gt(s, t) && gt(t, u) ensures gt(s, u) { KnuthBendix.Transitive(w, s, t, u); }
    forall t: Term, i: nat, u: Term | t.App? && i < |t.args| && gt(t.args[i], u)
      ensures gt(t, App(t.sym, t.args[i := u]))
    {
      KnuthBendix.ContextClosed(w, t.sym, t.args, i, t.args[i], u);
      assert t.args[i := t.args[i]] == t.args;
    }
    forall sigma: VarId -> Term, s, t | gt(s, t) ensures gt(Instance(sigma, s), Instance(sigma, t)) {
      KnuthBendix.Stable(w, sigma, s, t);
    }
    forall t ensures Accessible(gt, t) { KboAccessible(w, t); }
  }

  lemma LpoReduces(o: PathOrder.Lpo, arity: SymbolId -> nat)
    requires o.config.Injective()
    ensures ReductionOrder(LpoRelation(o, arity), t => FixedArity(t, arity))
  {
    var gt := LpoRelation(o, arity);
    forall s, t, u | gt(s, t) && gt(t, u) ensures gt(s, u) { PathOrder.Transitive(o, s, t, u); }
    forall t: Term, i: nat, u: Term | FixedArity(t, arity) && t.App? && i < |t.args| && gt(t.args[i], u)
      ensures gt(t, App(t.sym, t.args[i := u]))
    {
      PathOrder.ContextClosed(o, t.sym, t.args, i, t.args[i], u);
      assert t.args[i := t.args[i]] == t.args;
    }
    forall sigma: VarId -> Term, s, t | gt(s, t) && FixedArity(Instance(sigma, s), arity)
      ensures gt(Instance(sigma, s), Instance(sigma, t))
    {
      PathOrder.Stable(o, sigma, s, t);
      PathOrder.GtVars(o, s, t);
      ImagesFixed(arity, sigma, s);
      InstanceFixed(arity, sigma, t);
    }
    forall t | FixedArity(t, arity) ensures Accessible(gt, t) { LpoAccessible(o, arity, t); }
  }

  lemma {:induction false} ImagesFixed(arity: SymbolId -> nat, sigma: VarId -> Term, t: Term)
    requires FixedArity(Instance(sigma, t), arity)
    ensures forall v :: v in TermVars(t) ==> FixedArity(sigma(v), arity)
    decreases t
  {
    if t.App? {
      forall v | v in TermVars(t) ensures FixedArity(sigma(v), arity) {
        var i :| 0 <= i < |t.args| && v in TermVars(t.args[i]);
        assert FixedArity(Instances(sigma, t.args)[i], arity);
        ImagesFixed(arity, sigma, t.args[i]);
      }
    }
  }

  lemma {:induction false} InstanceFixed(arity: SymbolId -> nat, sigma: VarId -> Term, t: Term)
    requires FixedArity(t, arity) && forall v :: v in TermVars(t) ==> FixedArity(sigma(v), arity)
    ensures FixedArity(Instance(sigma, t), arity)
    decreases t
  {
    if t.App? {
      forall i | 0 <= i < |t.args| ensures FixedArity(Instance(sigma, t.args[i]), arity) {
        assert forall v :: v in TermVars(t.args[i]) ==> v in TermVars(t);
        InstanceFixed(arity, sigma, t.args[i]);
      }
    }
  }

  // ----- a walk that makes a step decreases the term

  ghost predicate Oriented(gt: Relation, rules: map<ClauseId, Rule>) {
    forall id :: id in rules ==> gt(rules[id].lhs, rules[id].rhs)
  }

  ghost predicate AllOk(ok: Term -> bool, ts: seq<Term>) { forall i :: 0 <= i < |ts| ==> ok(ts[i]) }

  /** No element grew, and unless `same` one of them shrank. */
  ghost predicate Shrunk(gt: Relation, ts: seq<Term>, us: seq<Term>, same: bool) {
    && |ts| == |us|
    && (forall i :: 0 <= i < |ts| ==> us[i] == ts[i] || gt(ts[i], us[i]))
    && if same then us == ts else exists i :: 0 <= i < |ts| && gt(ts[i], us[i])
  }

  lemma RootShrinks(gt: Relation, ok: Term -> bool, r: Rule, t: Term)
    requires ReductionOrder(gt, ok) && ok(t) && gt(r.lhs, r.rhs) && RewriteRoot(r, t).Some?
    ensures gt(t, RewriteRoot(r, t).value)
  {
    MatchExact(r.lhs, t);
    var s := Match(r.lhs, t, map[]).value;
    assert Instance(Sub(s), r.lhs) == t;
  }

  /** Replacing arguments one after the other. */
  lemma {:induction false} AppShrinks(gt: Relation, ok: Term -> bool, t: Term, us: seq<Term>, k: nat)
    requires ReductionOrder(gt, ok) && ok(t) && t.App? && k <= |t.args| == |us|
    requires forall i :: 0 <= i < k ==> us[i] == t.args[i] || gt(t.args[i], us[i])
    ensures var u := App(t.sym, us[..k] + t.args[k..]);
      && ok(u) && (u == t || gt(t, u))
      && ((exists i :: 0 <= i < k && gt(t.args[i], us[i])) ==> gt(t, u))
    decreases k
  {
    if k == 0 {
      assert us[..0] + t.args[0..] == t.args;
    } else {
      AppShrinks(gt, ok, t, us, k - 1);
      var s, u := App(t.sym, us[..k - 1] + t.args[k - 1..]), App(t.sym, us[..k] + t.args[k..]);
      assert u.args == s.args[k - 1 := us[k - 1]] && s.args[k - 1] == t.args[k - 1];
      if us[k - 1] == t.args[k - 1] {
        assert u == s;
        if gt(t.args[k - 1], us[k - 1]) { assert gt(s, u); }
      } else {
        assert gt(s, u);
      }
    }
  }

  lemma {:induction false} WalkShrinks(gt: Relation, ok: Term -> bool, c: Context, target: set<nat>, t: Term)
    requires ReductionOrder(gt, ok) && Oriented(gt, c.rules) && ok(t)
    ensures var w := Walk(c, target, t); if w.steps == [] then w.result == t else gt(t, w.result)
    decreases t, 1
  {
    match Root(c, target, t)
    case Some(id) => RootShrinks(gt, ok, c.rules[id], t);
    case None =>
      if t.App? {
        WalkArgsShrinks(gt, ok, c, target, t.args, 0);
        var us := WalkArgs(c, target, t.args, 0).result;
        AppShrinks(gt, ok, t, us, |us|);
        assert us[..|us|] + t.args[|us|..] == us;
      }
  }

  lemma {:induction false} WalkArgsShrinks(gt: Relation, ok: Term -> bool, c: Context, target: set<nat>, ts: seq<Term>,
                                           i: nat)
    requires ReductionOrder(gt, ok) && Oriented(gt, c.rules) && AllOk(ok, ts)
    ensures var w := WalkArgs(c, target, ts, i); Shrunk(gt, ts, w.result, w.steps == [])
    decreases ts, 0
  {
    if ts != [] {
      var w, r := Walk(c, target, ts[0]), WalkArgs(c, target, ts[1..], i + 1);
      WalkShrinks(gt, ok, c, target, ts[0]);
      WalkArgsShrinks(gt, ok, c, target, ts[1..], i + 1);
      UnderEmpty(i, w.steps);
      if w.steps != [] { assert gt([ts[0]][0], [w.result][0]); }
      ShrunkConcat(gt, [ts[0]], [w.result], w.steps == [], ts[1..], r.result, r.steps == []);
      assert [ts[0]] + ts[1..] == ts;
    }
  }

  lemma ShrunkConcat(gt: Relation, ts: seq<Term>, us: seq<Term>, same: bool, ts2: seq<Term>, us2: seq<Term>,
                     same2: bool)
    requires Shrunk(gt, ts, us, same) && Shrunk(gt, ts2, us2, same2)
    ensures Shrunk(gt, ts + ts2, us + us2, same && same2)
  {
    if !same {
      var i :| 0 <= i < |ts| && gt(ts[i], us[i]);
      assert gt((ts + ts2)[i], (us + us2)[i]);
    } else if !same2 {
      var i :| 0 <= i < |ts2| && gt(ts2[i], us2[i]);
      assert gt((ts + ts2)[|ts| + i], (us + us2)[|ts| + i]);
    }
  }

  // ----- a pass that makes a step decreases the arguments of the clause

  /** All literal arguments of a clause, in order. */
  function Flat(c: Clause): seq<Term> {
    if c == [] then [] else AtomArgs(c[0].atom) + Flat(c[1..])
  }

  lemma RecordedEmpty(ls: seq<Local>, lit: nat, prefix: seq<nat>)
    ensures Recorded(ls, lit, prefix) == [] <==> ls == []
  {
  }

  /** A pass from literal `i` on leaves the literals before `i` alone. */
  lemma {:induction false} PassPrefix(c: Context, target: set<nat>, lits: Clause, i: nat)
    requires i <= |lits|
    ensures var p := PassFrom(c, target, lits, i); |p.result| == |lits| && forall k :: 0 <= k < i ==>
      p.result[k] == lits[k]
    decreases |lits| - i
  {
    if i < |lits| { PassPrefix(c, target, WithLit(lits, i, WalkArgs(c, target, AtomArgs(lits[i].atom), 0).result),
      i + 1); }
  }

  lemma FlatFrom(c: Clause, i: nat)
    requires i < |c|
    ensures Flat(c[i..]) == AtomArgs(c[i].atom) + Flat(c[i + 1..])
  {
    assert c[i..][1..] == c[i + 1..];
  }

  lemma {:induction false} PassShrinks(gt: Relation, ok: Term -> bool, c: Context, target: set<nat>, lits: Clause,
                                       i: nat)
    requires ReductionOrder(gt, ok) && Oriented(gt, c.rules) && i <= |lits| && AllOk(ok, Flat(lits[i..]))
    ensures var p := PassFrom(c, target, lits, i);
      |p.result| == |lits| && Shrunk(gt, Flat(lits[i..]), Flat(p.result[i..]), p.steps == [])
    decreases |lits| - i
  {
    var p := PassFrom(c, target, lits, i);
    PassPrefix(c, target, lits, i);
    if i < |lits| {
      var args := AtomArgs(lits[i].atom);
      var w := WalkArgs(c, target, args, 0);
      var next := WithLit(lits, i, w.result);
      var q := PassFrom(c, target, next, i + 1);
      PassPrefix(c, target, next, i + 1);
      FlatFrom(lits, i);
      FlatFrom(p.result, i);
      assert next[i + 1..] == lits[i + 1..];
      FlatParts(ok, args, Flat(lits[i + 1..]));
      WalkArgsShrinks(gt, ok, c, target, args, 0);
      PassShrinks(gt, ok, c, target, next, i + 1);
      RecordedEmpty(w.steps, i, []);
      assert AtomArgs(p.result[i].atom) == w.result;
      ShrunkConcat(gt, args, w.result, w.steps == [], Flat(lits[i + 1..]), Flat(q.result[i + 1..]), q.steps == []);
    } else {
      assert lits[i..] == [] && p.result[i..] == [];
    }
  }

  lemma FlatParts(ok: Term -> bool, ts: seq<Term>, us: seq<Term>)
    requires AllOk(ok, ts + us)
    ensures AllOk(ok, ts) && AllOk(ok, us)
  {
    forall i | 0 <= i < |ts| ensures ok(ts[i]) { assert (ts + us)[i] == ts[i]; }
    forall i | 0 <= i < |us| ensures ok(us[i]) { assert (ts + us)[|ts| + i] == us[i]; }
  }

  /** Elements that did not grow and are not all the same differ first at a smaller one. */
  lemma {:induction false} FirstSmaller(gt: Relation, ts: seq<Term>, us: seq<Term>, k: nat) returns (i: nat)
    requires k < |ts| == |us| && ts[..k] == us[..k] && ts != us
    requires forall j :: 0 <= j < |ts| ==> us[j] == ts[j] || gt(ts[j], us[j])
    ensures LexAt(gt, ts, us, i)
    decreases |ts| - k
  {
    if ts[k] == us[k] {
      assert ts[..k + 1] == us[..k + 1];
      assert ts[..|ts|] == ts && us[..|us|] == us;
      i := FirstSmaller(gt, ts, us, k + 1);
    } else {
      i := k;
    }
  }

  ghost predicate Stops(c: Context, target: set<nat>, lits: Clause) {
    exists n: nat :: Productive(c, target, lits, n) < n
  }

  ghost predicate StopsAll(ok: Term -> bool, c: Context, target: set<nat>, ts: seq<Term>) {
    AllOk(ok, ts) ==> forall lits: Clause :: Flat(lits) == ts ==> Stops(c, target, lits)
  }

  lemma StopsStep(gt: Relation, ok: Term -> bool, c: Context, target: set<nat>, lits: Clause)
    requires ReductionOrder(gt, ok) && Oriented(gt, c.rules) && AllOk(ok, Flat(lits))
    requires forall us, i: nat :: LexAt(gt, Flat(lits), us, i) && |us| == |Flat(lits)| && AllOk(ok, us) ==>
      StopsAll(ok, c, target, us)
    ensures Stops(c, target, lits)
  {
    var p := PassFrom(c, target, lits, 0);
    assert lits[0..] == lits && p.result[0..] == p.result;
    PassShrinks(gt, ok, c, target, lits, 0);
    if p.steps == [] {
      assert Productive(c, target, lits, 1) == 0;
    } else {
      var ts, us := Flat(lits), Flat(p.result);
      if us == ts {
        var k :| 0 <= k < |ts| && gt(ts[k], us[k]);
        NotReflexive(gt, ts[k]);
      }
      var i := FirstSmaller(gt, ts, us, 0);
      assert StopsAll(ok, c, target, us);
      var n: nat :| Productive(c, target, p.result, n) < n;
      assert Productive(c, target, lits, n + 1) == 1 + Productive(c, target, p.result, n);
    }
  }

  lemma NotReflexive(gt: Relation, t: Term)
    requires Accessible(gt, t)
    ensures !gt(t, t)
  {
    NoDescent(gt, (i: nat) => t);
  }

  /** With oriented rules some number of passes suffices, and the clause is then fully reduced. */
  lemma PassesTerminate(gt: Relation, ok: Term -> bool, c: Context, target: set<nat>, lits: Clause)
    requires ReductionOrder(gt, ok) && Oriented(gt, c.rules) && AllOk(ok, Flat(lits)) && c.WellFormed()
    ensures exists n: nat ::
      Productive(c, target, lits, n) < n && IrreducibleClause(c, target, Passes(c, target, lits, n).result)
  {
    var m := |Flat(lits)|;
    var r: seq<Term> -> bool := (ts: seq<Term>) => |ts| == m ==> StopsAll(ok, c, target, ts);
    forall ss | |ss| <= m && AllAccessible(gt, ss) && SmallerHold(gt, m, r, ss, |ss|) ensures r(ss) {
      if |ss| == m && AllOk(ok, ss) {
        forall other: Clause | Flat(other) == ss ensures Stops(c, target, other) {
          forall us, i: nat | LexAt(gt, ss, us, i) && |us| == |ss| && AllOk(ok, us)
            ensures StopsAll(ok, c, target, us)
          {
            assert r(us);
          }
          StopsStep(gt, ok, c, target, other);
        }
      }
    }
    assert LexProgressive(gt, m, r);
    LexReaches(gt, m, r, Flat(lits));
    assert StopsAll(ok, c, target, Flat(lits));
    var n: nat :| Productive(c, target, lits, n) < n;
    PassesNormalise(c, target, lits, n);
  }

  /** With rules oriented by the Knuth-Bendix ordering. */
  lemma KboTerminates(w: SymbolConfig, c: Context, target: set<nat>, lits: Clause)
    requires KnuthBendix.Admissible(w) && c.WellFormed()
    requires forall id :: id in c.rules ==> KnuthBendix.Gt(w, c.rules[id].lhs, c.rules[id].rhs)
    ensures exists n: nat ::
      Productive(c, target, lits, n) < n && IrreducibleClause(c, target, Passes(c, target, lits, n).result)
  {
    KboReduces(w);
    PassesTerminate(KboRelation(w), _ => true, c, target, lits);
  }

  /** With rules of fixed arity oriented by the path ordering. */
  lemma LpoTerminates(o: PathOrder.Lpo, arity: SymbolId -> nat, c: Context, target: set<nat>, lits: Clause)
    requires o.config.Injective() && c.WellFormed() && AllOk(t => FixedArity(t, arity), Flat(lits))
    requires forall id :: id in c.rules ==>
      var r := c.rules[id]; FixedArity(r.lhs, arity) && FixedArity(r.rhs, arity) && PathOrder.Gt(o, r.lhs, r.rhs)
    ensures exists n: nat ::
      Productive(c, target, lits, n) < n && IrreducibleClause(c, target, Passes(c, target, lits, n).result)
  {
    LpoReduces(o, arity);
    PassesTerminate(LpoRelation(o, arity), t => FixedArity(t, arity), c, target, lits);
  }
}
