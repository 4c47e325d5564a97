/** `estimate_clause_count`: the saturating estimate is exactly the size of the distributed CNF. */
module ClauseCount {
  import opened Fol
  import opened NormalForm
  import opened Stripping
  import opened Distribution

  const USIZE_MAX: nat := 0xFFFF_FFFF_FFFF_FFFF

  function Sat(x: nat): nat { if x > USIZE_MAX then USIZE_MAX else x }

  function SatAdd(a: nat, b: nat): nat { Sat(a + b) }

  function SatMul(a: nat, b: nat): nat { Sat(a * b) }

  /** `estimate_clause_count` (`neg == false`) and `estimate_neg_clause_count` (`neg == true`). */
  function Estimate(f: Formula, neg: bool): nat
    decreases f
  {
    match f
    case And(fs) => if neg then EstimateProduct(fs, neg, 1) else EstimateSum(fs, neg, 0)
    case Or(fs) => if neg then EstimateSum(fs, neg, 0) else EstimateProduct(fs, neg, 1)
    case Neg(g) => Estimate(g, !neg)
    case Implies(a, b) =>
      if neg then SatAdd(Estimate(a, false), Estimate(b, true))
      else SatMul(Estimate(a, true), Estimate(b, false))
    case Iff(a, b) =>
      if neg then
        SatAdd(SatMul(Estimate(a, false), Estimate(b, false)), SatMul(Estimate(a, true), Estimate(b, true)))
      else
        SatAdd(SatMul(Estimate(a, true), Estimate(b, false)), SatMul(Estimate(a, false), Estimate(b, true)))
    case Forall(_, b) => Estimate(b, neg)
    case Exists(_, b) => Estimate(b, neg)
    case _ => 1
  }

  function EstimateSum(fs: seq<Formula>, neg: bool, acc: nat): nat
    decreases fs
  {
    if fs == [] then acc else EstimateSum(fs[1..], neg, SatAdd(acc, Estimate(fs[0], neg)))
  }

  function EstimateProduct(fs: seq<Formula>, neg: bool, acc: nat): nat
    decreases fs
  {
    if fs == [] then acc else EstimateProduct(fs[1..], neg, SatMul(acc, Estimate(fs[0], neg)))
  }

  function Times(a: nat, b: nat): nat { a * b }

  /** The same count over unbounded integers. */
  function Count(f: Formula, neg: bool): nat
    decreases f
  {
    match f
    case And(fs) => if neg then Product(fs, neg) else Sum(fs, neg)
    case Or(fs) => if neg then Sum(fs, neg) else Product(fs, neg)
    case Neg(g) => Count(g, !neg)
    case Implies(a, b) =>
      if neg then Count(a, false) + Count(b, true) else Times(Count(a, true), Count(b, false))
    case Iff(a, b) =>
      if neg then Times(Count(a, false), Count(b, false)) + Times(Count(a, true), Count(b, true))
      else Times(Count(a, true), Count(b, false)) + Times(Count(a, false), Count(b, true))
    case Forall(_, b) => Count(b, neg)
    case Exists(_, b) => Count(b, neg)
    case _ => 1
  }

  function Sum(fs: seq<Formula>, neg: bool): nat
    decreases fs
  {
    if fs == [] then 0 else Count(fs[0], neg) + Sum(fs[1..], neg)
  }

  function Product(fs: seq<Formula>, neg: bool): nat
    decreases fs
  {
    if fs == [] then 1 else Times(Count(fs[0], neg), Product(fs[1..], neg))
  }

  lemma MulMono(a: nat, b: nat, c: nat)
    requires a <= b
    ensures a * c <= b * c
  {
  }

  lemma SatMulSat(a: nat, b: nat)
    ensures SatMul(Sat(a), Sat(b)) == Sat(a * b)
  {
    if a > USIZE_MAX && b > 0 {
      MulMono(1, Sat(b), USIZE_MAX);
      MulMono(1, b, a);
    } else if b > USIZE_MAX && a > 0 {
      MulMono(1, Sat(a), USIZE_MAX);
      MulMono(1, a, b);
    }
  }

  lemma SatAddSat(a: nat, b: nat)
    ensures SatAdd(Sat(a), Sat(b)) == Sat(a + b)
  {
  }

  lemma SatCross(p: nat, q: nat, r: nat, s: nat)
    ensures SatAdd(SatMul(Sat(p), Sat(q)), SatMul(Sat(r), Sat(s))) == Sat(p * q + r * s)
  {
    SatMulSat(p, q);
    SatMulSat(r, s);
    SatAddSat(p * q, r * s);
  }

  lemma MulAssoc(a: nat, b: nat, c: nat)
    ensures (a * b) * c == a * (b * c)
  {
  }

  /** Saturating arithmetic never drifts: the estimate is the true count capped at the maximum. */
  lemma {:induction false} EstimateIsCount(f: Formula, neg: bool)
    ensures Estimate(f, neg) == Sat(Count(f, neg))
    decreases f, 0
  {
    match f
    case And(fs) => if neg { EstimateProductIs(fs, neg, 1); } else { EstimateSumIs(fs, neg, 0); }
    case Or(fs) => if neg { EstimateSumIs(fs, neg, 0); } else { EstimateProductIs(fs, neg, 1); }
    case Neg(g) => EstimateIsCount(g, !neg);
    case Implies(a, b) => EstimateBoth(a); EstimateBoth(b); SatMulSat(Count(a, true), Count(b, false));
    case Iff(a, b) =>
      EstimateBoth(a); EstimateBoth(b);
      if neg {
        SatCross(Count(a, false), Count(b, false), Count(a, true), Count(b, true));
      } else {
        SatCross(Count(a, true), Count(b, false), Count(a, false), Count(b, true));
      }
    case Forall(_, b) => EstimateIsCount(b, neg);
    case Exists(_, b) => EstimateIsCount(b, neg);
    case _ =>
  }

  lemma {:induction false} EstimateBoth(f: Formula)
    ensures Estimate(f, true) == Sat(Count(f, true)) && Estimate(f, false) == Sat(Count(f, false))
    decreases f, 1
  {
    EstimateIsCount(f, true);
    EstimateIsCount(f, false);
  }

  lemma {:induction false} EstimateSumIs(fs: seq<Formula>, neg: bool, acc: nat)
    ensures EstimateSum(fs, neg, Sat(acc)) == Sat(acc + Sum(fs, neg))
    decreases fs
  {
    if fs != [] {
      EstimateIsCount(fs[0], neg);
      EstimateSumIs(fs[1..], neg, acc + Count(fs[0], neg));
    }
  }

  lemma {:induction false} EstimateProductIs(fs: seq<Formula>, neg: bool, acc: nat)
    ensures EstimateProduct(fs, neg, Sat(acc)) == Sat(acc * Product(fs, neg))
    decreases fs
  {
    if fs != [] {
      EstimateIsCount(fs[0], neg);
      SatMulSat(acc, Count(fs[0], neg));
      EstimateProductIs(fs[1..], neg, acc * Count(fs[0], neg));
      MulAssoc(acc, Count(fs[0], neg), Product(fs[1..], neg));
    }
  }

  // ----- each pass of the pipeline keeps the count

  lemma {:induction false} SumSame(fs: seq<Formula>, gs: seq<Formula>, negF: bool, negG: bool)
    requires |fs| == |gs| && forall i :: 0 <= i < |fs| ==> Count(fs[i], negF) == Count(gs[i], negG)
    ensures Sum(fs, negF) == Sum(gs, negG) && Product(fs, negF) == Product(gs, negG)
  {
    if fs != [] { SumSame(fs[1..], gs[1..], negF, negG); }
  }

  lemma CountMk(fs: seq<Formula>)
    ensures Count(MkAnd(fs), false) == Sum(fs, false) && Count(MkOr(fs), false) == Product(fs, false)
  {
    if |fs| == 1 { assert fs[1..] == []; }
  }

  lemma SumTwo(fs: seq<Formula>, x: Formula, y: Formula, neg: bool)
    requires |fs| == 2 && fs[0] == x && fs[1] == y
    ensures Sum(fs, neg) == Count(x, neg) + Count(y, neg) && Product(fs, neg) == Count(x, neg) * Count(y, neg)
  {
    assert fs[1..] == [y];
    SumOne(fs[1..], y, neg);
  }

  lemma SumOne(fs: seq<Formula>, y: Formula, neg: bool)
    requires |fs| == 1 && fs[0] == y
    ensures Sum(fs, neg) == Count(y, neg) && Product(fs, neg) == Count(y, neg)
  {
    assert fs[1..] == [];
  }

  lemma CountPair(a: Formula, b: Formula)
    ensures Count(MkAnd([a, b]), false) == Count(a, false) + Count(b, false)
    ensures Count(MkOr([a, b]), false) == Count(a, false) * Count(b, false)
  {
    CountMk([a, b]);
    SumTwo([a, b], a, b, false);
  }

  lemma {:induction false} NnfCount(f: Formula, neg: bool)
    ensures Count(Nnf(f, neg), false) == Count(f, neg)
    decreases f, 0
  {
    match f
    case And(fs) => NnfAllCount(fs, neg);
    case Or(fs) => NnfAllCount(fs, neg);
    case Neg(g) => NnfCount(g, !neg);
    case Implies(a, b) =>
      NnfCount(a, !neg); NnfCount(b, neg);
      CountPair(Nnf(a, !neg), Nnf(b, neg));
    case Iff(a, b) =>
      NnfCount(a, !neg); NnfCount(b, false); NnfCount(a, neg); NnfCount(b, true);
      CountPair(Nnf(a, !neg), Nnf(b, false));
      CountPair(Nnf(a, neg), Nnf(b, true));
      CountPair(MkOr([Nnf(a, !neg), Nnf(b, false)]), MkOr([Nnf(a, neg), Nnf(b, true)]));
    case Forall(_, b) => NnfCount(b, neg);
    case Exists(_, b) => NnfCount(b, neg);
    case _ =>
  }

  lemma {:induction false} NnfAllCount(fs: seq<Formula>, neg: bool)
    ensures Count(MkAnd(NnfAll(fs, neg)), false) == Sum(fs, neg)
    ensures Count(MkOr(NnfAll(fs, neg)), false) == Product(fs, neg)
    decreases fs
  {
    forall i | 0 <= i < |fs| ensures Count(NnfAll(fs, neg)[i], false) == Count(fs[i], neg) { NnfCount(fs[i], neg); }
    SumSame(fs, NnfAll(fs, neg), neg, false);
    CountMk(NnfAll(fs, neg));
  }

  lemma {:induction false} SumSplit(p: seq<Formula>, q: seq<Formula>)
    ensures Sum(p + q, false) == Sum(p, false) + Sum(q, false)
    ensures Product(p + q, false) == Product(p, false) * Product(q, false)
  {
    if p == [] {
      assert p + q == q;
    } else {
      assert (p + q)[1..] == p[1..] + q;
      SumSplit(p[1..], q);
      MulAssoc(Count(p[0], false), Product(p[1..], false), Product(q, false));
    }
  }

  lemma {:induction false} ConcatCount(fs: seq<Formula>)
    ensures Sum(ConcatAnd(fs), false) == Sum(fs, false)
    ensures Product(ConcatOr(fs), false) == Product(fs, false)
  {
    if fs != [] {
      ConcatCount(fs[1..]);
      SumSplit(AndParts(fs[0]), ConcatAnd(fs[1..]));
      SumSplit(OrParts(fs[0]), ConcatOr(fs[1..]));
      if !fs[0].And? { assert AndParts(fs[0])[1..] == []; }
      if !fs[0].Or? { assert OrParts(fs[0])[1..] == []; }
    }
  }

  lemma {:induction false} FlattenCount(f: Formula)
    requires IsMatrix(f)
    ensures Count(Flatten(f), false) == Count(f, false)
    decreases f
  {
    match f
    case And(fs) =>
      var gs := seq(|fs|, i requires 0 <= i < |fs| => Flatten(fs[i]));
      forall i | 0 <= i < |fs| ensures Count(gs[i], false) == Count(fs[i], false) { FlattenCount(fs[i]); }
      SumSame(fs, gs, false, false);
      ConcatCount(gs);
    case Or(fs) =>
      var gs := seq(|fs|, i requires 0 <= i < |fs| => Flatten(fs[i]));
      forall i | 0 <= i < |fs| ensures Count(gs[i], false) == Count(fs[i], false) { FlattenCount(fs[i]); }
      SumSame(fs, gs, false, false);
      ConcatCount(gs);
    case _ =>
  }

  /** Total number of conjuncts of a list of CNF formulas. */
  function ConjunctsAll(fs: seq<Formula>): nat {
    if fs == [] then 0 else Conjuncts(fs[0]) + ConjunctsAll(fs[1..])
  }

  lemma {:induction false} ConcatConjuncts(fs: seq<Formula>)
    ensures |ConcatAnd(fs)| == ConjunctsAll(fs)
  {
    if fs != [] { ConcatConjuncts(fs[1..]); }
  }

  lemma {:induction false} ConjunctsUniform(fs: seq<Formula>, k: nat)
    requires forall i :: 0 <= i < |fs| ==> Conjuncts(fs[i]) == k
    ensures ConjunctsAll(fs) == |fs| * k
  {
    if fs != [] {
      ConjunctsUniform(fs[1..], k);
      assert |fs| * k == (|fs| - 1) * k + k;
    }
  }

  lemma ClauseConjuncts(a: Formula, b: Formula)
    requires IsClause(a) && IsCnf(b)
    ensures Conjuncts(Pair(a, b)) == Conjuncts(b)
  {
    if b.And? {
      var gs := seq(|b.parts|, i requires 0 <= i < |b.parts| => Pair(a, b.parts[i]));
      assert forall i :: 0 <= i < |gs| ==> Conjuncts(gs[i]) == 1;
      PairRight(a, b, gs);
      UniformConjuncts(gs, 1);
    }
  }

  lemma PartsConjuncts(a: Formula, b: Formula)
    requires a.And? && IsCnf(b) && forall i :: 0 <= i < |a.parts| ==> IsClause(a.parts[i])
    ensures Conjuncts(Pair(a, b)) == |a.parts| * Conjuncts(b)
  {
    var k := Conjuncts(b);
    var gs := seq(|a.parts|, i requires 0 <= i < |a.parts| => Pair(a.parts[i], b));
    forall i | 0 <= i < |gs| ensures Conjuncts(gs[i]) == k { ClauseConjuncts(a.parts[i], b); }
    PairLeft(a, b, gs);
    UniformConjuncts(gs, k);
  }

  lemma PairConjuncts(a: Formula, b: Formula)
    requires IsCnf(a) && IsCnf(b)
    ensures Conjuncts(Pair(a, b)) == Conjuncts(a) * Conjuncts(b)
  {
    if a.And? {
      PartsConjuncts(a, b);
    } else {
      ClauseConjuncts(a, b);
      assert Conjuncts(a) == 1;
    }
  }

  lemma UniformConjuncts(gs: seq<Formula>, k: nat)
    requires forall i :: 0 <= i < |gs| ==> Conjuncts(gs[i]) == k
    ensures Conjuncts(And(ConcatAnd(gs))) == |gs| * k
  {
    ConcatConjuncts(gs);
    ConjunctsUniform(gs, k);
  }

  lemma {:induction false} PairAllConjuncts(ds: seq<Formula>, fs: seq<Formula>, n: SymbolId)
    requires |ds| == |fs|
    requires forall i :: 0 <= i < |ds| ==> CnfBelow(ds[i], n) && Conjuncts(ds[i]) == Count(fs[i], false)
    ensures Conjuncts(PairAll(ds)) == Product(fs, false)
    decreases ds
  {
    if |ds| == 1 {
      assert fs[1..] == [];
    } else if ds != [] {
      PairAllConjuncts(ds[1..], fs[1..], n);
      PairAllCnf(ds[1..], n);
      PairConjuncts(ds[0], PairAll(ds[1..]));
    }
  }

  lemma {:induction false} SumConjuncts(ds: seq<Formula>, fs: seq<Formula>)
    requires |ds| == |fs| && forall i :: 0 <= i < |ds| ==> Conjuncts(ds[i]) == Count(fs[i], false)
    ensures ConjunctsAll(ds) == Sum(fs, false)
    decreases ds
  {
    if ds != [] { SumConjuncts(ds[1..], fs[1..]); }
  }

  lemma {:induction false} DistributeConjuncts(f: Formula, n: SymbolId)
    requires IsMatrix(f) && SymsBelow(f, n)
    ensures Conjuncts(Distribute(f)) == Count(f, false)
    decreases f
  {
    match f
    case And(fs) =>
      var gs := seq(|fs|, i requires 0 <= i < |fs| => Distribute(fs[i]));
      forall i | 0 <= i < |fs| ensures Conjuncts(gs[i]) == Count(fs[i], false) { DistributeConjuncts(fs[i], n); }
      ConcatConjuncts(gs);
      SumConjuncts(gs, fs);
    case Or(fs) =>
      var gs := seq(|fs|, i requires 0 <= i < |fs| => Distribute(fs[i]));
      forall i | 0 <= i < |fs| ensures CnfBelow(gs[i], n) && Conjuncts(gs[i]) == Count(fs[i], false) {
        DistributeConjuncts(fs[i], n);
        DistributeCnf(fs[i], n);
      }
      PairAllConjuncts(gs, fs, n);
    case _ =>
  }

  predicate QuantifierFree(f: Formula) {
    match f
    case Neg(g) => QuantifierFree(g)
    case And(fs) => forall i :: 0 <= i < |fs| ==> QuantifierFree(fs[i])
    case Or(fs) => forall i :: 0 <= i < |fs| ==> QuantifierFree(fs[i])
    case Implies(a, b) => QuantifierFree(a) && QuantifierFree(b)
    case Iff(a, b) => QuantifierFree(a) && QuantifierFree(b)
    case Forall(_, _) => false
    case Exists(_, _) => false
    case _ => true
  }

  lemma {:induction false} NnfIsMatrix(f: Formula, neg: bool)
    requires QuantifierFree(f)
    ensures IsMatrix(Nnf(f, neg))
    decreases f
  {
    match f
    case Neg(g) => NnfIsMatrix(g, !neg);
    case And(fs) => forall i | 0 <= i < |fs| { NnfIsMatrix(fs[i], neg); }
    case Or(fs) => forall i | 0 <= i < |fs| { NnfIsMatrix(fs[i], neg); }
    case Implies(a, b) => NnfIsMatrix(a, !neg); NnfIsMatrix(b, neg);
    case Iff(a, b) => NnfIsMatrix(a, true); NnfIsMatrix(a, false); NnfIsMatrix(b, true); NnfIsMatrix(b, false);
    case _ =>
  }

  /** For every quantifier-free formula, NNF and distribution give an equivalent CNF, and the
      estimate computed beforehand is the number of its conjuncts capped at `usize::MAX`. */
  lemma CnfExactCount<D(!new)>(m: Structure<D>, e: Env<D>, f: Formula, n: SymbolId)
    requires QuantifierFree(f) && SymsBelow(f, n)
    ensures var r := ToCnf(ToNnf(f));
      && IsCnf(r)
      && Holds(m, e, r) == Holds(m, e, f)
      && Estimate(f, false) == Sat(Conjuncts(r))
  {
    var g := ToNnf(f);
    NnfIsMatrix(f, false);
    NnfShape(f, false, n);
    NnfMeaning(m, e, f, false);
    ToCnfHolds(m, e, g);
    ToCnfShape(g, n);
    FlattenMatrix(g, n);
    DistributeConjuncts(Flatten(g), n);
    FlattenCount(g);
    NnfCount(f, false);
    EstimateIsCount(f, false);
  }
}
