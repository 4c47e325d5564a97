/** The Knuth-Bendix ordering without AC symbols: the code's four-way comparison, the strict
    order it decides, and the laws of that order. */
module KnuthBendix {
  import opened Fol
  import opened TermOrder

  function Weight(c: SymbolConfig, t: Term): nat
    decreases t
  {
    match t
    case Var(_) => c.w0
    case App(f, args) => c.Weight(f) + Weights(c, args)
  }

  function Weights(c: SymbolConfig, ts: seq<Term>): nat
    decreases ts
  {
    if ts == [] then 0 else Weight(c, ts[0]) + Weights(c, ts[1..])
  }

  /** `var_counts`: occurrences of each variable. */
  function VarCounts(t: Term): multiset<VarId>
    decreases t
  {
    match t
    case Var(v) => multiset{v}
    case App(_, args) => VarCountsAll(args)
  }

  function VarCountsAll(ts: seq<Term>): multiset<VarId>
    decreases ts
  {
    if ts == [] then multiset{} else VarCounts(ts[0]) + VarCountsAll(ts[1..])
  }

  /** Every variable occurs in `s` at least as often as in `t`. */
  predicate VarsGe(s: Term, t: Term) { VarCounts(t) <= VarCounts(s) }

  /** `compare` and `compare_id`; they differ only when all zipped arguments are equal although
      the terms are not (`idForm` then says `Equal`). */
  function Compare(c: SymbolConfig, s: Term, t: Term, idForm: bool): Comparison
    decreases s, t
  {
    if s == t then Equal
    else if Weight(c, s) > Weight(c, t) && VarsGe(s, t) then Greater
    else if Weight(c, t) > Weight(c, s) && VarsGe(t, s) then Less
    else if Weight(c, s) != Weight(c, t) then Incomparable
    else if s.Var? || t.Var? then Incomparable
    else if s.sym != t.sym then
      if VarsGe(s, t) && c.Prec(s.sym) > c.Prec(t.sym) then Greater
      else if VarsGe(t, s) && c.Prec(t.sym) > c.Prec(s.sym) then Less
      else Incomparable
    else CompareArgs(c, s.args, t.args, VarsGe(s, t), VarsGe(t, s), idForm)
  }

  function CompareArgs(c: SymbolConfig, ss: seq<Term>, ts: seq<Term>, sGe: bool, tGe: bool, idForm: bool): Comparison
    decreases ss
  {
    if ss == [] || ts == [] then (if idForm then Equal else Incomparable) else
    match Compare(c, ss[0], ts[0], idForm)
    case Equal => CompareArgs(c, ss[1..], ts[1..], sGe, tGe, idForm)
    case Greater => if sGe then Greater else Incomparable
    case Less => if tGe then Less else Incomparable
    case Incomparable => Incomparable
  }

  /** The strict order, one direction at a time. */
  predicate Gt(c: SymbolConfig, s: Term, t: Term)
    decreases s
  {
    && VarsGe(s, t)
    && (|| Weight(c, s) > Weight(c, t)
        || (&& Weight(c, s) == Weight(c, t) && s.App? && t.App?
            && (|| (s.sym != t.sym && c.Prec(s.sym) > c.Prec(t.sym))
                || (s.sym == t.sym && LexGt(c, s.args, t.args)))))
  }

  predicate LexGt(c: SymbolConfig, ss: seq<Term>, ts: seq<Term>)
    decreases ss
  {
    ss != [] && ts != [] && if ss[0] == ts[0] then LexGt(c, ss[1..], ts[1..]) else Gt(c, ss[0], ts[0])
  }

  /** Positive variable weight, no symbol lighter than a variable. */
  ghost predicate Admissible(c: SymbolConfig) {
    c.w0 >= 1 && forall s :: c.Weight(s) >= c.w0
  }

  // ----- the comparison decides the order

  lemma {:induction false} WeightPositive(c: SymbolConfig, t: Term)
    requires Admissible(c)
    ensures Weight(c, t) >= c.w0
  {
    if t.App? { assert c.Weight(t.sym) >= c.w0; }
  }

  /** Argument lists of one weight that agree where both have elements are equal. */
  lemma {:induction false} PrefixWeight(c: SymbolConfig, ss: seq<Term>, ts: seq<Term>)
    requires Admissible(c) && Weights(c, ss) == Weights(c, ts)
    requires forall i :: 0 <= i < |ss| && i < |ts| ==> ss[i] == ts[i]
    ensures ss == ts
  {
    if ss != [] && ts != [] {
      PrefixWeight(c, ss[1..], ts[1..]);
      assert ss == [ss[0]] + ss[1..] && ts == [ts[0]] + ts[1..];
    } else {
      if ss != [] { WeightPositive(c, ss[0]); }
      if ts != [] { WeightPositive(c, ts[0]); }
    }
  }

  lemma {:induction false} Irreflexive(c: SymbolConfig, s: Term)
    ensures !Gt(c, s, s)
  {
    if s.App? { LexIrreflexive(c, s.args); }
  }

  lemma {:induction false} LexIrreflexive(c: SymbolConfig, ss: seq<Term>)
    ensures !LexGt(c, ss, ss)
  {
    if ss != [] { LexIrreflexive(c, ss[1..]); }
  }

  /** Both forms return `Greater`, `Less` and `Equal` exactly for the order, its converse and
      identity, so they agree, whatever the arities. */
  lemma {:induction false} CompareDecides(c: SymbolConfig, s: Term, t: Term, idForm: bool)
    requires Admissible(c)
    ensures Compare(c, s, t, idForm) == Greater <==> Gt(c, s, t)
    ensures Compare(c, s, t, idForm) == Less <==> Gt(c, t, s)
    ensures Compare(c, s, t, idForm) == Equal <==> s == t
    ensures s.App? && t.App? && s.sym != t.sym && Weight(c, s) == Weight(c, t) && VarsGe(s, t) ==>
      (Gt(c, s, t) <==> c.Above(s.sym, t.sym))
    decreases s, t
  {
    Irreflexive(c, s);
    if s != t && s.App? && t.App? && s.sym == t.sym && Weight(c, s) == Weight(c, t) {
      if forall i :: 0 <= i < |s.args| && i < |t.args| ==> s.args[i] == t.args[i] {
        PrefixWeight(c, s.args, t.args);
      }
      ArgsDecide(c, s.args, t.args, VarsGe(s, t), VarsGe(t, s), idForm);
    }
  }

  lemma {:induction false} ArgsDecide(c: SymbolConfig, ss: seq<Term>, ts: seq<Term>, sGe: bool, tGe: bool, idForm: bool)
    requires Admissible(c)
    requires exists i :: 0 <= i < |ss| && i < |ts| && ss[i] != ts[i]
    ensures var r := CompareArgs(c, ss, ts, sGe, tGe, idForm);
      && (r == Greater <==> sGe && LexGt(c, ss, ts))
      && (r == Less <==> tGe && LexGt(c, ts, ss))
      && r != Equal
    decreases ss
  {
    CompareDecides(c, ss[0], ts[0], idForm);
    if ss[0] == ts[0] {
      var i :| 0 <= i < |ss| && i < |ts| && ss[i] != ts[i];
      assert ss[1..][i - 1] != ts[1..][i - 1];
      ArgsDecide(c, ss[1..], ts[1..], sGe, tGe, idForm);
    } else {
      GtAntisymmetric(c, ss[0], ts[0]);
    }
  }

  // ----- what the tables decide

  /** At equal weight the precedence table decides between different heads: the term with the
      higher head is greater exactly when it has enough variables, the other one never is. */
  lemma TableDecides(c: SymbolConfig, s: Term, t: Term, idForm: bool)
    requires Admissible(c) && s.App? && t.App? && Weight(c, s) == Weight(c, t)
    requires s.sym != t.sym && c.Above(s.sym, t.sym)
    ensures Gt(c, s, t) <==> VarsGe(s, t)
    ensures !Gt(c, t, s)
    ensures Compare(c, s, t, idForm) == if VarsGe(s, t) then Greater else Incomparable
  {
    CompareDecides(c, s, t, idForm);
  }

  /** Different heads on the same level of the table decide nothing at equal weight. */
  lemma TableTies(c: SymbolConfig, s: Term, t: Term, idForm: bool)
    requires Admissible(c) && s.App? && t.App? && Weight(c, s) == Weight(c, t) && s.sym != t.sym
    requires !c.Above(s.sym, t.sym) && !c.Above(t.sym, s.sym)
    ensures Compare(c, s, t, idForm) == Incomparable
  {
    CompareDecides(c, s, t, idForm);
  }

  /** The weight table decides before the precedence: exchanging the head changes the weight by
      the difference of the entries, and the heavier head wins on the same arguments. */
  lemma HeavierHead(c: SymbolConfig, f: SymbolId, g: SymbolId, args: seq<Term>, k: nat, idForm: bool)
    requires Admissible(c) && c.Heavier(f, g, k)
    ensures Weight(c, App(f, args)) == Weight(c, App(g, args)) + k
    ensures k > 0 ==> Compare(c, App(f, args), App(g, args), idForm) == Greater
  {
    CompareDecides(c, App(f, args), App(g, args), idForm);
  }

  // ----- strict partial order

  lemma {:induction false} Transitive(c: SymbolConfig, s: Term, t: Term, u: Term)
    requires Gt(c, s, t) && Gt(c, t, u)
    ensures Gt(c, s, u)
    decreases s
  {
    if s.App? && t.App? && u.App? && s.sym == t.sym == u.sym && LexGt(c, s.args, t.args) && LexGt(c, t.args, u.args) {
      LexTransitive(c, s.args, t.args, u.args);
    }
  }

  lemma {:induction false} LexTransitive(c: SymbolConfig, ss: seq<Term>, ts: seq<Term>, us: seq<Term>)
    requires LexGt(c, ss, ts) && LexGt(c, ts, us)
    ensures LexGt(c, ss, us)
    decreases ss
  {
    if ss[0] == ts[0] == us[0] {
      LexTransitive(c, ss[1..], ts[1..], us[1..]);
    } else if ss[0] != ts[0] && ts[0] != us[0] {
      Transitive(c, ss[0], ts[0], us[0]);
      Irreflexive(c, ss[0]);
    }
  }

  lemma GtAntisymmetric(c: SymbolConfig, s: Term, t: Term)
    ensures !(Gt(c, s, t) && Gt(c, t, s))
  {
    if Gt(c, s, t) && Gt(c, t, s) {
      Transitive(c, s, t, s);
      Irreflexive(c, s);
    }
  }

  // ----- subterms and contexts

  lemma {:induction false} ArgBounds(c: SymbolConfig, ts: seq<Term>, i: nat)
    requires i < |ts|
    ensures Weight(c, ts[i]) <= Weights(c, ts) && VarCounts(ts[i]) <= VarCountsAll(ts)
  {
    if i > 0 { ArgBounds(c, ts[1..], i - 1); }
  }

  /** A term is greater than each of its arguments. */
  lemma SubtermProperty(c: SymbolConfig, t: Term, i: nat)
    requires Admissible(c) && t.App? && i < |t.args|
    ensures Gt(c, t, t.args[i])
  {
    ArgBounds(c, t.args, i);
    assert c.Weight(t.sym) >= c.w0;
  }

  lemma TailOfUpdate(args: seq<Term>, i: nat, s: Term)
    requires 0 < i < |args|
    ensures args[i := s][0] == args[0] && args[i := s][1..] == args[1..][i - 1 := s]
  {
  }

  lemma {:induction false} ReplaceWeight(c: SymbolConfig, args: seq<Term>, i: nat, s: Term, t: Term)
    requires i < |args|
    ensures Weights(c, args[i := s]) + Weight(c, t) == Weights(c, args[i := t]) + Weight(c, s)
    decreases i
  {
    if i == 0 {
      assert args[i := s][1..] == args[1..] == args[i := t][1..];
    } else {
      TailOfUpdate(args, i, s); TailOfUpdate(args, i, t);
      ReplaceWeight(c, args[1..], i - 1, s, t);
    }
  }

  lemma AddLeft(a: multiset<VarId>, x: multiset<VarId>, y: multiset<VarId>, p: multiset<VarId>, q: multiset<VarId>)
    requires x + q == y + p
    ensures (a + x) + q == (a + y) + p
  {
    forall v ensures ((a + x) + q)[v] == ((a + y) + p)[v] { assert (x + q)[v] == (y + p)[v]; }
  }

  lemma {:induction false} ReplaceCounts(args: seq<Term>, i: nat, s: Term, t: Term)
    requires i < |args|
    ensures VarCountsAll(args[i := s]) + VarCounts(t) == VarCountsAll(args[i := t]) + VarCounts(s)
    decreases i
  {
    var p, q, rest := VarCounts(s), VarCounts(t), VarCountsAll(args[1..]);
    if i == 0 {
      assert args[i := s][1..] == args[1..] == args[i := t][1..];
      assert VarCountsAll(args[i := s]) == p + rest && VarCountsAll(args[i := t]) == q + rest;
    } else {
      TailOfUpdate(args, i, s); TailOfUpdate(args, i, t);
      ReplaceCounts(args[1..], i - 1, s, t);
      AddLeft(VarCounts(args[0]), VarCountsAll(args[1..][i - 1 := s]), VarCountsAll(args[1..][i - 1 := t]), p, q);
    }
  }

  lemma {:induction false} LexContext(c: SymbolConfig, args: seq<Term>, i: nat, s: Term, t: Term)
    requires i < |args| && Gt(c, s, t)
    ensures LexGt(c, args[i := s], args[i := t])
    decreases i
  {
    if i == 0 {
      Irreflexive(c, s);
    } else {
      TailOfUpdate(args, i, s); TailOfUpdate(args, i, t);
      LexContext(c, args[1..], i - 1, s, t);
    }
  }

  lemma ContextClosed(c: SymbolConfig, f: SymbolId, args: seq<Term>, i: nat, s: Term, t: Term)
    requires i < |args| && Gt(c, s, t)
    ensures Gt(c, App(f, args[i := s]), App(f, args[i := t]))
  {
    ReplaceWeight(c, args, i, s, t);
    ReplaceCounts(args, i, s, t);
    LexContext(c, args, i, s, t);
    CountsCancel(VarCountsAll(args[i := s]), VarCountsAll(args[i := t]), VarCounts(s), VarCounts(t));
  }

  lemma CountsCancel(a: multiset<VarId>, b: multiset<VarId>, p: multiset<VarId>, q: multiset<VarId>)
    requires a + q == b + p && q <= p
    ensures b <= a
  {
    forall x ensures b[x] <= a[x] { assert (a + q)[x] == (b + p)[x]; }
  }

  // ----- stability under substitution

  /** The variable occurrences of a term, left to right. */
  function VarSeq(t: Term): (r: seq<VarId>)
    ensures multiset(r) == VarCounts(t)
    decreases t
  {
    match t
    case Var(v) => [v]
    case App(_, args) => VarSeqAll(args)
  }

  function VarSeqAll(ts: seq<Term>): (r: seq<VarId>)
    ensures multiset(r) == VarCountsAll(ts)
    decreases ts
  {
    if ts == [] then [] else VarSeq(ts[0]) + VarSeqAll(ts[1..])
  }

  /** Variables of the images of a list of variables. */
  function ImageCounts(sigma: VarId -> Term, xs: seq<VarId>): multiset<VarId> {
    if xs == [] then multiset{} else VarCounts(sigma(xs[0])) + ImageCounts(sigma, xs[1..])
  }

  /** Weight gained by replacing a list of variables. */
  function Gain(c: SymbolConfig, sigma: VarId -> Term, xs: seq<VarId>): int {
    if xs == [] then 0 else Weight(c, sigma(xs[0])) - c.w0 + Gain(c, sigma, xs[1..])
  }

  lemma {:induction false} ImagesSplit(c: SymbolConfig, sigma: VarId -> Term, p: seq<VarId>, q: seq<VarId>)
    ensures ImageCounts(sigma, p + q) == ImageCounts(sigma, p) + ImageCounts(sigma, q)
    ensures Gain(c, sigma, p + q) == Gain(c, sigma, p) + Gain(c, sigma, q)
  {
    if p == [] {
      assert p + q == q;
    } else {
      assert (p + q)[1..] == p[1..] + q;
      ImagesSplit(c, sigma, p[1..], q);
    }
  }

  lemma {:induction false} InstanceShape(c: SymbolConfig, sigma: VarId -> Term, t: Term)
    ensures VarCounts(Instance(sigma, t)) == ImageCounts(sigma, VarSeq(t))
    ensures Weight(c, Instance(sigma, t)) == Weight(c, t) + Gain(c, sigma, VarSeq(t))
    decreases t
  {
    match t
    case Var(v) => assert [v][1..] == [];
    case App(_, args) => InstancesShape(c, sigma, args);
  }

  lemma {:induction false} InstancesShape(c: SymbolConfig, sigma: VarId -> Term, ts: seq<Term>)
    ensures VarCountsAll(Instances(sigma, ts)) == ImageCounts(sigma, VarSeqAll(ts))
    ensures Weights(c, Instances(sigma, ts)) == Weights(c, ts) + Gain(c, sigma, VarSeqAll(ts))
    decreases ts
  {
    if ts != [] {
      assert Instances(sigma, ts)[1..] == Instances(sigma, ts[1..]);
      InstanceShape(c, sigma, ts[0]);
      InstancesShape(c, sigma, ts[1..]);
      ImagesSplit(c, sigma, VarSeq(ts[0]), VarSeqAll(ts[1..]));
    }
  }

  lemma {:induction false} GainNonNegative(c: SymbolConfig, sigma: VarId -> Term, xs: seq<VarId>)
    requires Admissible(c)
    ensures Gain(c, sigma, xs) >= 0
  {
    if xs != [] {
      WeightPositive(c, sigma(xs[0]));
      GainNonNegative(c, sigma, xs[1..]);
    }
  }

  lemma TakeOut(xs: seq<VarId>, i: nat)
    requires i < |xs|
    ensures multiset(xs[..i] + xs[i + 1..]) == multiset(xs) - multiset{xs[i]}
  {
    assert xs == xs[..i] + [xs[i]] + xs[i + 1..];
  }

  lemma TakeOutImages(c: SymbolConfig, sigma: VarId -> Term, xs: seq<VarId>, i: nat)
    requires i < |xs|
    ensures ImageCounts(sigma, xs) == VarCounts(sigma(xs[i])) + ImageCounts(sigma, xs[..i] + xs[i + 1..])
    ensures Gain(c, sigma, xs) == Weight(c, sigma(xs[i])) - c.w0 + Gain(c, sigma, xs[..i] + xs[i + 1..])
  {
    var rest := xs[i..];
    assert xs == xs[..i] + rest && rest[1..] == xs[i + 1..];
    ImagesSplit(c, sigma, xs[..i], rest);
    ImagesSplit(c, sigma, xs[..i], xs[i + 1..]);
  }

  /** More occurrences give more image variables and at least as much weight. */
  lemma {:induction false} ImagesMonotone(c: SymbolConfig, sigma: VarId -> Term, p: seq<VarId>, q: seq<VarId>)
    requires Admissible(c) && multiset(p) <= multiset(q)
    ensures ImageCounts(sigma, p) <= ImageCounts(sigma, q)
    ensures Gain(c, sigma, p) <= Gain(c, sigma, q)
    decreases p
  {
    if p == [] {
      GainNonNegative(c, sigma, q);
    } else {
      assert p[0] in multiset(p) && p[0] in q;
      var i :| 0 <= i < |q| && q[i] == p[0];
      var rest := q[..i] + q[i + 1..];
      TakeOut(q, i);
      assert p == [p[0]] + p[1..];
      assert multiset(p[1..]) <= multiset(rest);
      ImagesMonotone(c, sigma, p[1..], rest);
      TakeOutImages(c, sigma, q, i);
    }
  }

  lemma {:induction false} Stable(c: SymbolConfig, sigma: VarId -> Term, s: Term, t: Term)
    requires Admissible(c) && Gt(c, s, t)
    ensures Gt(c, Instance(sigma, s), Instance(sigma, t))
    decreases s
  {
    InstanceShape(c, sigma, s);
    InstanceShape(c, sigma, t);
    ImagesMonotone(c, sigma, VarSeq(t), VarSeq(s));
    if s.App? && t.App? && s.sym == t.sym && LexGt(c, s.args, t.args) {
      LexStable(c, sigma, s.args, t.args);
    }
  }

  lemma {:induction false} LexStable(c: SymbolConfig, sigma: VarId -> Term, ss: seq<Term>, ts: seq<Term>)
    requires Admissible(c) && LexGt(c, ss, ts)
    ensures LexGt(c, Instances(sigma, ss), Instances(sigma, ts))
    decreases ss
  {
    assert Instances(sigma, ss)[1..] == Instances(sigma, ss[1..]);
    assert Instances(sigma, ts)[1..] == Instances(sigma, ts[1..]);
    if ss[0] == ts[0] {
      LexStable(c, sigma, ss[1..], ts[1..]);
    } else {
      Stable(c, sigma, ss[0], ts[0]);
      Irreflexive(c, Instance(sigma, ss[0]));
    }
  }

  // ----- totality on ground terms

  lemma {:induction false} GroundTotal(c: SymbolConfig, s: Term, t: Term)
    requires Admissible(c) && c.Injective() && VarCounts(s) == multiset{} && VarCounts(t) == multiset{}
    ensures s == t || Gt(c, s, t) || Gt(c, t, s)
    decreases s
  {
    if s != t && s.App? && t.App? && s.sym == t.sym && Weight(c, s) == Weight(c, t) {
      LexTotal(c, s.args, t.args);
    }
  }

  lemma {:induction false} LexTotal(c: SymbolConfig, ss: seq<Term>, ts: seq<Term>)
    requires Admissible(c) && c.Injective() && Weights(c, ss) == Weights(c, ts)
    requires VarCountsAll(ss) == multiset{} && VarCountsAll(ts) == multiset{}
    ensures ss == ts || LexGt(c, ss, ts) || LexGt(c, ts, ss)
    decreases ss
  {
    if ss == [] || ts == [] {
      PrefixWeight(c, ss, ts);
    } else {
      assert VarCounts(ss[0]) <= VarCountsAll(ss) && VarCounts(ts[0]) <= VarCountsAll(ts);
      assert VarCountsAll(ss[1..]) <= VarCountsAll(ss) && VarCountsAll(ts[1..]) <= VarCountsAll(ts);
      if ss[0] == ts[0] {
        LexTotal(c, ss[1..], ts[1..]);
        assert ss == [ss[0]] + ss[1..] && ts == [ts[0]] + ts[1..];
      } else {
        GroundTotal(c, ss[0], ts[0]);
      }
    }
  }
}
