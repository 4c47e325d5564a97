/** Well-foundedness of the two reduction orderings. */
module Descent {
  import opened Fol
  import opened TermOrder
  import PathOrder
  import KnuthBendix

  type Relation = (Term, Term) -> bool

  // ----- accessibility

  ghost predicate HoldsBelow(gt: Relation, p: Term -> bool, t: Term) { forall u :: gt(t, u) ==> p(u) }

  /** `p` holds of a term as soon as it holds of everything below it. */
  ghost predicate Progressive(gt: Relation, p: Term -> bool) {
    forall t {:trigger HoldsBelow(gt, p, t)} :: HoldsBelow(gt, p, t) ==> p(t)
  }

  /** Well-founded induction reaches `t`. */
  ghost predicate Accessible(gt: Relation, t: Term) {
    forall p: Term -> bool {:trigger Progressive(gt, p)} :: Progressive(gt, p) ==> p(t)
  }

  lemma Access(gt: Relation, t: Term)
    requires forall u :: gt(t, u) ==> Accessible(gt, u)
    ensures Accessible(gt, t)
  {
    forall p: Term -> bool | Progressive(gt, p) ensures p(t) {
      forall u | gt(t, u) ensures p(u) { assert Accessible(gt, u); }
      assert HoldsBelow(gt, p, t);
    }
  }

  ghost predicate AccessibleBelow(gt: Relation, t: Term) { forall u :: gt(t, u) ==> Accessible(gt, u) }

  lemma AccessBelow(gt: Relation, t: Term, u: Term)
    requires Accessible(gt, t) && gt(t, u)
    ensures Accessible(gt, u)
  {
    var p: Term -> bool := (x: Term) => AccessibleBelow(gt, x);
    forall x | HoldsBelow(gt, p, x) ensures p(x) {
      forall y | gt(x, y) ensures Accessible(gt, y) {
        assert p(y);
        Access(gt, y);
      }
    }
    assert Progressive(gt, p);
    assert p(t);
  }

  ghost predicate Descends(gt: Relation, chain: nat -> Term) { forall i: nat :: gt(chain(i), chain(i + 1)) }

  ghost predicate NotInChain(chain: nat -> Term, x: Term) { forall i: nat :: chain(i) != x }

  lemma ChainAvoids(gt: Relation, chain: nat -> Term, x: Term)
    requires Descends(gt, chain) && forall u :: gt(x, u) ==> NotInChain(chain, u)
    ensures NotInChain(chain, x)
  {
    forall i: nat ensures chain(i) != x {
      assert gt(chain(i), chain(i + 1));
      assert !NotInChain(chain, chain(i + 1));
    }
  }

  /** From an accessible term no sequence descends forever. */
  lemma NoDescent(gt: Relation, chain: nat -> Term)
    requires Accessible(gt, chain(0))
    ensures !Descends(gt, chain)
  {
    var p: Term -> bool := (x: Term) => NotInChain(chain, x) || !Descends(gt, chain);
    forall x | HoldsBelow(gt, p, x) ensures p(x) {
      if Descends(gt, chain) {
        forall u | gt(x, u) ensures NotInChain(chain, u) { assert p(u); }
        ChainAvoids(gt, chain, x);
      }
    }
    assert Progressive(gt, p);
    assert p(chain(0)) && !NotInChain(chain, chain(0));
  }

  // ----- lists of bounded length, compared at the first difference

  ghost predicate AllAccessible(gt: Relation, ts: seq<Term>) {
    forall i :: 0 <= i < |ts| ==> Accessible(gt, ts[i])
  }

  ghost predicate LexAt(gt: Relation, ss: seq<Term>, ts: seq<Term>, i: nat) {
    i < |ss| && i < |ts| && ss[..i] == ts[..i] && gt(ss[i], ts[i])
  }

  /** `r` holds of a list of accessible terms as soon as it holds of all smaller ones. */
  ghost predicate LexProgressive(gt: Relation, n: nat, r: seq<Term> -> bool) {
    forall ss {:trigger SmallerHold(gt, n, r, ss, |ss|)} ::
      |ss| <= n && AllAccessible(gt, ss) && SmallerHold(gt, n, r, ss, |ss|) ==> r(ss)
  }

  /** `r` holds of the lists that are smaller than `ss` at an index before `k`. */
  ghost predicate SmallerHold(gt: Relation, n: nat, r: seq<Term> -> bool, ss: seq<Term>, k: nat) {
    forall ts, i: nat :: |ts| <= n && AllAccessible(gt, ts) && i < k && LexAt(gt, ss, ts, i) ==> r(ts)
  }

  lemma {:induction false} LexInduction(gt: Relation, n: nat, r: seq<Term> -> bool, pre: seq<Term>, rest: seq<Term>)
    requires LexProgressive(gt, n, r) && |pre| + |rest| <= n
    requires AllAccessible(gt, pre) && AllAccessible(gt, rest) && SmallerHold(gt, n, r, pre, |pre|)
    ensures r(pre + rest)
    decreases n - |pre|, 1
  {
    if rest == [] {
      assert pre + rest == pre;
    } else {
      var p: Term -> bool := (x: Term) => HoldsBehind(gt, n, r, pre, x);
      forall x | HoldsBelow(gt, p, x) ensures p(x) {
        forall y | gt(x, y) ensures HoldsBehind(gt, n, r, pre, y) { assert p(y); }
        ExtendPrefix(gt, n, r, pre, x);
      }
      assert Progressive(gt, p);
      assert Accessible(gt, rest[0]) && p(rest[0]);
      assert AllAccessible(gt, rest[1..]);
      assert pre + rest == pre + [rest[0]] + rest[1..];
    }
  }

  ghost predicate HoldsBehind(gt: Relation, n: nat, r: seq<Term> -> bool, pre: seq<Term>, x: Term) {
    Accessible(gt, x) ==> forall rest :: |pre| + 1 + |rest| <= n && AllAccessible(gt, rest) ==> r(pre + [x] + rest)
  }

  lemma {:induction false} ExtendPrefix(gt: Relation, n: nat, r: seq<Term> -> bool, pre: seq<Term>, x: Term)
    requires LexProgressive(gt, n, r) && |pre| < n && AllAccessible(gt, pre)
    requires SmallerHold(gt, n, r, pre, |pre|)
    requires forall y :: gt(x, y) ==> HoldsBehind(gt, n, r, pre, y)
    ensures HoldsBehind(gt, n, r, pre, x)
    decreases n - |pre|, 0
  {
    if Accessible(gt, x) {
      var longer := pre + [x];
      forall ts, i: nat | |ts| <= n && AllAccessible(gt, ts) && i < |longer| && LexAt(gt, longer, ts, i) ensures r(ts) {
        if i < |pre| {
          assert longer[..i] == pre[..i];
          assert LexAt(gt, pre, ts, i);
        } else {
          assert longer[..i] == pre;
          assert ts == pre + [ts[i]] + ts[i + 1..];
          assert HoldsBehind(gt, n, r, pre, ts[i]);
        }
      }
      assert SmallerHold(gt, n, r, longer, |longer|);
      forall rest | |pre| + 1 + |rest| <= n && AllAccessible(gt, rest) ensures r(longer + rest) {
        LexInduction(gt, n, r, longer, rest);
      }
    }
  }

  lemma LexReaches(gt: Relation, n: nat, r: seq<Term> -> bool, ts: seq<Term>)
    requires LexProgressive(gt, n, r) && |ts| <= n && AllAccessible(gt, ts)
    ensures r(ts)
  {
    LexInduction(gt, n, r, [], ts);
    assert [] + ts == ts;
  }

  // ----- the lexicographic path ordering

  /** The path ordering on terms that respect `arity`. */
  ghost function LpoRelation(o: PathOrder.Lpo, arity: SymbolId -> nat): Relation {
    (s: Term, t: Term) => FixedArity(s, arity) && FixedArity(t, arity) && PathOrder.Gt(o, s, t)
  }

  lemma {:induction false} LpoLex(o: PathOrder.Lpo, arity: SymbolId -> nat, ss: seq<Term>, ts: seq<Term>)
    returns (i: nat)
    requires PathOrder.LexGt(o, ss, ts) && |ss| == |ts|
    requires forall k :: 0 <= k < |ss| ==> FixedArity(ss[k], arity) && FixedArity(ts[k], arity)
    ensures LexAt(LpoRelation(o, arity), ss, ts, i)
    decreases ss
  {
    if ss[0] == ts[0] {
      var n := LpoLex(o, arity, ss[1..], ts[1..]);
      i := n + 1;
      assert ss[..i] == [ss[0]] + ss[1..][..n] && ts[..i] == [ts[0]] + ts[1..][..n];
    } else {
      i := 0;
    }
  }

  ghost predicate LpoTop(o: PathOrder.Lpo, arity: SymbolId -> nat, f: SymbolId, ts: seq<Term>) {
    FixedArity(App(f, ts), arity) ==> Accessible(LpoRelation(o, arity), App(f, ts))
  }

  /** Everything below `f(ss)` is accessible when smaller lists under `f` and lists under symbols
      of smaller precedence are; by induction on the smaller term. */
  lemma {:induction false} LpoBelow(o: PathOrder.Lpo, arity: SymbolId -> nat, f: SymbolId, ss: seq<Term>, u: Term)
    requires o.config.Injective() && LpoRelation(o, arity)(App(f, ss), u) && AllAccessible(LpoRelation(o, arity), ss)
    requires forall ts, i: nat ::
      (|ts| == |ss| && AllAccessible(LpoRelation(o, arity), ts) && LexAt(LpoRelation(o, arity), ss, ts, i)) ==>
        LpoTop(o, arity, f, ts)
    requires forall g, ts :: o.config.Prec(g) < o.config.Prec(f) && AllAccessible(LpoRelation(o, arity), ts) ==>
      LpoTop(o, arity, g, ts)
    ensures Accessible(LpoRelation(o, arity), u)
    decreases u
  {
    var gt, s := LpoRelation(o, arity), App(f, ss);
    PathOrder.GtVars(o, s, u);
    assert forall i :: 0 <= i < |ss| ==> FixedArity(s.args[i], arity) && Accessible(gt, s.args[i]);
    if u.Var? {
      var i :| 0 <= i < |ss| && u.v in TermVars(ss[i]);
      LpoVariable(o, ss[i], u);
      if ss[i] != u { AccessBelow(gt, ss[i], u); }
    } else if i :| 0 <= i < |s.args| && (s.args[i] == u || PathOrder.Gt(o, s.args[i], u)) {
      if s.args[i] != u { AccessBelow(gt, s.args[i], u); }
    } else {
      assert PathOrder.HeadGt(o, s, u);
      forall j | 0 <= j < |u.args| ensures Accessible(gt, u.args[j]) {
        LpoBelow(o, arity, f, ss, u.args[j]);
      }
      if o.config.Prec(f) == o.config.Prec(u.sym) {
        var i := LpoLex(o, arity, ss, u.args);
        assert LpoTop(o, arity, f, u.args);
      } else {
        assert LpoTop(o, arity, u.sym, u.args);
      }
    }
  }

  lemma LpoVariable(o: PathOrder.Lpo, t: Term, u: Term)
    requires u.Var? && u.v in TermVars(t)
    ensures t == u || PathOrder.Gt(o, t, u)
  {
  }

  lemma {:induction false} LpoApp(o: PathOrder.Lpo, arity: SymbolId -> nat, f: SymbolId, args: seq<Term>)
    requires o.config.Injective() && AllAccessible(LpoRelation(o, arity), args)
    ensures LpoTop(o, arity, f, args)
    decreases o.config.Prec(f)
  {
    var gt := LpoRelation(o, arity);
    var r: seq<Term> -> bool := (ts: seq<Term>) => LpoTop(o, arity, f, ts);
    forall g, ts | o.config.Prec(g) < o.config.Prec(f) && AllAccessible(gt, ts) ensures LpoTop(o, arity, g, ts) {
      LpoApp(o, arity, g, ts);
    }
    var n := |args|;
    forall ss | |ss| <= n && AllAccessible(gt, ss) && SmallerHold(gt, n, r, ss, |ss|) ensures r(ss) {
      forall ts, i: nat | AllAccessible(gt, ts) && LexAt(gt, ss, ts, i) && |ts| == |ss|
        ensures LpoTop(o, arity, f, ts)
      {
        assert r(ts);
      }
      forall u | gt(App(f, ss), u) ensures Accessible(gt, u) { LpoBelow(o, arity, f, ss, u); }
      Access(gt, App(f, ss));
    }
    assert LexProgressive(gt, n, r);
    LexReaches(gt, n, r, args);
  }

  /** Every term of fixed arity is accessible. */
  lemma {:induction false} LpoAccessible(o: PathOrder.Lpo, arity: SymbolId -> nat, t: Term)
    requires o.config.Injective() && FixedArity(t, arity)
    ensures Accessible(LpoRelation(o, arity), t)
    decreases t
  {
    var gt := LpoRelation(o, arity);
    if t.Var? {
      forall u ensures !PathOrder.Gt(o, t, u) {
        if PathOrder.Gt(o, t, u) { PathOrder.GtVars(o, t, u); }
      }
      Access(gt, t);
    } else {
      forall i | 0 <= i < |t.args| ensures Accessible(gt, t.args[i]) { LpoAccessible(o, arity, t.args[i]); }
      LpoApp(o, arity, t.sym, t.args);
    }
  }

  /** The path ordering is well-founded on terms of fixed arity, variables included. */
  lemma LpoWellFounded(o: PathOrder.Lpo, arity: SymbolId -> nat, chain: nat -> Term)
    requires o.config.Injective() && forall i: nat :: FixedArity(chain(i), arity)
    ensures exists i: nat :: !PathOrder.Gt(o, chain(i), chain(i + 1))
  {
    LpoAccessible(o, arity, chain(0));
    NoDescent(LpoRelation(o, arity), chain);
  }

  // ----- the Knuth-Bendix ordering

  ghost function KboRelation(w: SymbolConfig): Relation { (s: Term, t: Term) => KnuthBendix.Gt(w, s, t) }

  lemma {:induction false} KboLex(w: SymbolConfig, ss: seq<Term>, ts: seq<Term>) returns (i: nat)
    requires KnuthBendix.LexGt(w, ss, ts)
    ensures LexAt(KboRelation(w), ss, ts, i)
    decreases ss
  {
    if ss[0] == ts[0] {
      var n := KboLex(w, ss[1..], ts[1..]);
      i := n + 1;
      assert ss[..i] == [ss[0]] + ss[1..][..n] && ts[..i] == [ts[0]] + ts[1..][..n];
    } else {
      i := 0;
    }
  }

  ghost predicate KboTop(w: SymbolConfig, k: nat, f: SymbolId, ts: seq<Term>) {
    KnuthBendix.Weight(w, App(f, ts)) == k ==> Accessible(KboRelation(w), App(f, ts))
  }

  /** A list of positive weights is no longer than its weight. */
  lemma {:induction false} LengthBound(w: SymbolConfig, ts: seq<Term>)
    requires KnuthBendix.Admissible(w)
    ensures |ts| <= KnuthBendix.Weights(w, ts)
  {
    if ts != [] {
      KnuthBendix.WeightPositive(w, ts[0]);
      LengthBound(w, ts[1..]);
    }
  }

  lemma {:induction false} ArgLighter(w: SymbolConfig, ts: seq<Term>, i: nat)
    requires i < |ts|
    ensures KnuthBendix.Weight(w, ts[i]) <= KnuthBendix.Weights(w, ts)
  {
    if i > 0 { ArgLighter(w, ts[1..], i - 1); }
  }

  /** Terms of weight `k` under a symbol of precedence `q` are accessible; by induction on both. */
  lemma {:induction false} KboApp(w: SymbolConfig, k: nat, q: nat, f: SymbolId, args: seq<Term>)
    requires KnuthBendix.Admissible(w) && KnuthBendix.Weight(w, App(f, args)) == k && w.Prec(f) == q
    ensures Accessible(KboRelation(w), App(f, args))
    decreases k, 1, q
  {
    var gt := KboRelation(w);
    var r: seq<Term> -> bool := (ts: seq<Term>) => KboTop(w, k, f, ts);
    assert w.Weight(f) >= 1;
    forall ss | |ss| <= k && AllAccessible(gt, ss) && SmallerHold(gt, k, r, ss, |ss|) ensures r(ss) {
      if KnuthBendix.Weight(w, App(f, ss)) == k {
        forall u | gt(App(f, ss), u) ensures Accessible(gt, u) { KboBelow(w, k, q, f, ss, u); }
        Access(gt, App(f, ss));
      }
    }
    assert LexProgressive(gt, k, r);
    LengthBound(w, args);
    forall i | 0 <= i < |args| ensures Accessible(gt, args[i]) {
      ArgLighter(w, args, i);
      KboAccessible(w, args[i]);
    }
    LexReaches(gt, k, r, args);
  }

  lemma {:induction false} KboBelow(w: SymbolConfig, k: nat, q: nat, f: SymbolId, ss: seq<Term>, u: Term)
    requires KnuthBendix.Admissible(w) && KnuthBendix.Weight(w, App(f, ss)) == k && w.Prec(f) == q
    requires SmallerHold(KboRelation(w), k, (ts: seq<Term>) => KboTop(w, k, f, ts), ss, |ss|)
    requires KnuthBendix.Gt(w, App(f, ss), u)
    ensures Accessible(KboRelation(w), u)
    decreases k, 1, q, 0
  {
    var gt := KboRelation(w);
    if KnuthBendix.Weight(w, u) < k {
      KboAccessible(w, u);
    } else if u.sym != f {
      KboApp(w, k, w.Prec(u.sym), u.sym, u.args);
    } else {
      var i := KboLex(w, ss, u.args);
      assert w.Weight(f) >= 1;
      LengthBound(w, u.args);
      forall j | 0 <= j < |u.args| ensures Accessible(gt, u.args[j]) {
        ArgLighter(w, u.args, j);
        KboAccessible(w, u.args[j]);
      }
      assert KboTop(w, k, f, u.args);
    }
  }

  lemma {:induction false} KboAccessible(w: SymbolConfig, t: Term)
    requires KnuthBendix.Admissible(w)
    ensures Accessible(KboRelation(w), t)
    decreases KnuthBendix.Weight(w, t), 2
  {
    if t.App? {
      KboApp(w, KnuthBendix.Weight(w, t), w.Prec(t.sym), t.sym, t.args);
    } else {
      forall u ensures !KnuthBendix.Gt(w, t, u) { KnuthBendix.WeightPositive(w, u); }
      Access(KboRelation(w), t);
    }
  }

  /** With admissible weights the Knuth-Bendix ordering is well-founded, whatever the arities. */
  lemma KboWellFounded(w: SymbolConfig, chain: nat -> Term)
    requires KnuthBendix.Admissible(w)
    ensures exists i: nat :: !KnuthBendix.Gt(w, chain(i), chain(i + 1))
  {
    KboAccessible(w, chain(0));
    NoDescent(KboRelation(w), chain);
  }
}
