/** Distributive CNF: flattening, and distribution of Or over And. */
module Distribution {
  import opened Fol
  import opened Stripping

  function AndParts(f: Formula): seq<Formula> { if f.And? then f.parts else [f] }

  function OrParts(f: Formula): seq<Formula> { if f.Or? then f.parts else [f] }

  /** Splices the conjuncts of nested conjunctions into one list. */
  function ConcatAnd(fs: seq<Formula>): seq<Formula> {
    if fs == [] then [] else AndParts(fs[0]) + ConcatAnd(fs[1..])
  }

  function ConcatOr(fs: seq<Formula>): seq<Formula> {
    if fs == [] then [] else OrParts(fs[0]) + ConcatOr(fs[1..])
  }

  /** `flatten_connectives`. */
  function Flatten(f: Formula): Formula {
    match f
    case And(fs) => And(ConcatAnd(seq(|fs|, i requires 0 <= i < |fs| => Flatten(fs[i]))))
    case Or(fs) => Or(ConcatOr(seq(|fs|, i requires 0 <= i < |fs| => Flatten(fs[i]))))
    case Neg(g) => Neg(Flatten(g))
    case _ => f
  }

  /** `distribute_or_pair`. */
  function Pair(a: Formula, b: Formula): Formula
    decreases a, b
  {
    if a.And? then And(ConcatAnd(seq(|a.parts|, i requires 0 <= i < |a.parts| => Pair(a.parts[i], b))))
    else if b.And? then And(ConcatAnd(seq(|b.parts|, i requires 0 <= i < |b.parts| => Pair(a, b.parts[i]))))
    else Or(OrParts(a) + OrParts(b))
  }

  /** `distribute_or_list`. */
  function PairAll(ds: seq<Formula>): Formula {
    if ds == [] then False
    else if |ds| == 1 then ds[0]
    else Pair(ds[0], PairAll(ds[1..]))
  }

  /** `distribute`. */
  function Distribute(f: Formula): Formula {
    match f
    case And(fs) => And(ConcatAnd(seq(|fs|, i requires 0 <= i < |fs| => Distribute(fs[i]))))
    case Or(fs) => PairAll(seq(|fs|, i requires 0 <= i < |fs| => Distribute(fs[i])))
    case _ => f
  }

  function ToCnf(f: Formula): Formula { Distribute(Flatten(f)) }

  // ----- the target shape

  predicate IsLiteral(f: Formula) {
    f.AtomF? || f.True? || f.False? || (f.Neg? && f.inner.AtomF?)
  }

  predicate IsClause(f: Formula) {
    IsLiteral(f) || (f.Or? && forall i :: 0 <= i < |f.parts| ==> IsLiteral(f.parts[i]))
  }

  /** Conjunction of disjunctions of literals. */
  predicate IsCnf(f: Formula) {
    IsClause(f) || (f.And? && forall i :: 0 <= i < |f.parts| ==> IsClause(f.parts[i]))
  }

  /** Number of conjuncts of a CNF formula, hence of clauses. */
  function Conjuncts(f: Formula): nat { |AndParts(f)| }

  // ----- truth

  lemma AndSplit<D(!new)>(m: Structure<D>, e: Env<D>, p: seq<Formula>, q: seq<Formula>)
    ensures Holds(m, e, And(p + q)) == (Holds(m, e, And(p)) && Holds(m, e, And(q)))
  {
    if Holds(m, e, And(p + q)) {
      forall i | 0 <= i < |p| ensures Holds(m, e, p[i]) { assert (p + q)[i] == p[i]; }
      forall i | 0 <= i < |q| ensures Holds(m, e, q[i]) { assert (p + q)[|p| + i] == q[i]; }
    }
  }

  lemma OrSplit<D(!new)>(m: Structure<D>, e: Env<D>, p: seq<Formula>, q: seq<Formula>)
    ensures Holds(m, e, Or(p + q)) == (Holds(m, e, Or(p)) || Holds(m, e, Or(q)))
  {
    if Holds(m, e, Or(p)) {
      var i :| 0 <= i < |p| && Holds(m, e, p[i]);
      assert (p + q)[i] == p[i];
    }
    if Holds(m, e, Or(q)) {
      var i :| 0 <= i < |q| && Holds(m, e, q[i]);
      assert (p + q)[|p| + i] == q[i];
    }
  }

  lemma ConsHolds<D(!new)>(m: Structure<D>, e: Env<D>, fs: seq<Formula>)
    requires fs != []
    ensures Holds(m, e, And(fs)) == (Holds(m, e, fs[0]) && Holds(m, e, And(fs[1..])))
    ensures Holds(m, e, Or(fs)) == (Holds(m, e, fs[0]) || Holds(m, e, Or(fs[1..])))
  {
    assert fs == [fs[0]] + fs[1..];
    AndSplit(m, e, [fs[0]], fs[1..]);
    OrSplit(m, e, [fs[0]], fs[1..]);
    assert [fs[0]][0] == fs[0];
  }

  lemma AndPartsHold<D(!new)>(m: Structure<D>, e: Env<D>, f: Formula)
    ensures Holds(m, e, And(AndParts(f))) == Holds(m, e, f)
  {
    if !f.And? { assert AndParts(f)[0] == f; }
  }

  lemma {:induction false} ConcatAndHolds<D(!new)>(m: Structure<D>, e: Env<D>, fs: seq<Formula>)
    ensures Holds(m, e, And(ConcatAnd(fs))) == Holds(m, e, And(fs))
  {
    if fs != [] {
      ConcatAndHolds(m, e, fs[1..]);
      AndPartsHold(m, e, fs[0]);
      AndSplit(m, e, AndParts(fs[0]), ConcatAnd(fs[1..]));
      ConsHolds(m, e, fs);
    }
  }

  lemma OrPartsHold<D(!new)>(m: Structure<D>, e: Env<D>, f: Formula)
    ensures Holds(m, e, Or(OrParts(f))) == Holds(m, e, f)
  {
    if !f.Or? { assert OrParts(f)[0] == f; }
  }

  lemma {:induction false} ConcatOrHolds<D(!new)>(m: Structure<D>, e: Env<D>, fs: seq<Formula>)
    ensures Holds(m, e, Or(ConcatOr(fs))) == Holds(m, e, Or(fs))
  {
    if fs != [] {
      ConcatOrHolds(m, e, fs[1..]);
      OrPartsHold(m, e, fs[0]);
      OrSplit(m, e, OrParts(fs[0]), ConcatOr(fs[1..]));
      ConsHolds(m, e, fs);
    }
  }

  /** Pointwise equivalent lists have equivalent conjunctions and disjunctions. */
  lemma SameParts<D(!new)>(m2: Structure<D>, m: Structure<D>, e: Env<D>, gs: seq<Formula>, fs: seq<Formula>)
    requires |gs| == |fs| && forall i :: 0 <= i < |fs| ==> Holds(m2, e, gs[i]) == Holds(m, e, fs[i])
    ensures Holds(m2, e, And(gs)) == Holds(m, e, And(fs)) && Holds(m2, e, Or(gs)) == Holds(m, e, Or(fs))
  {
    if Holds(m, e, Or(fs)) { var i :| 0 <= i < |fs| && Holds(m, e, fs[i]); assert Holds(m2, e, gs[i]); }
    if Holds(m2, e, Or(gs)) { var i :| 0 <= i < |gs| && Holds(m2, e, gs[i]); assert Holds(m, e, fs[i]); }
  }

  lemma {:induction false} FlattenHolds<D(!new)>(m: Structure<D>, e: Env<D>, f: Formula)
    ensures Holds(m, e, Flatten(f)) == Holds(m, e, f)
    decreases f
  {
    match f
    case And(fs) =>
      var gs := seq(|fs|, i requires 0 <= i < |fs| => Flatten(fs[i]));
      forall i | 0 <= i < |fs| ensures Holds(m, e, gs[i]) == Holds(m, e, fs[i]) { FlattenHolds(m, e, fs[i]); }
      ConcatAndHolds(m, e, gs);
      SameParts(m, m, e, gs, fs);
    case Or(fs) =>
      var gs := seq(|fs|, i requires 0 <= i < |fs| => Flatten(fs[i]));
      forall i | 0 <= i < |fs| ensures Holds(m, e, gs[i]) == Holds(m, e, fs[i]) { FlattenHolds(m, e, fs[i]); }
      ConcatOrHolds(m, e, gs);
      SameParts(m, m, e, gs, fs);
    case Neg(g) => FlattenHolds(m, e, g);
    case _ =>
  }

  lemma {:induction false} PairHoldsOr<D(!new)>(m: Structure<D>, e: Env<D>, a: Formula, b: Formula)
    ensures Holds(m, e, Pair(a, b)) == (Holds(m, e, a) || Holds(m, e, b))
    decreases a, b
  {
    if a.And? {
      var gs := seq(|a.parts|, i requires 0 <= i < |a.parts| => Pair(a.parts[i], b));
      forall i | 0 <= i < |gs| ensures Holds(m, e, gs[i]) == (Holds(m, e, a.parts[i]) || Holds(m, e, b)) {
        PairHoldsOr(m, e, a.parts[i], b);
      }
      ConcatAndHolds(m, e, gs);
    } else if b.And? {
      var gs := seq(|b.parts|, i requires 0 <= i < |b.parts| => Pair(a, b.parts[i]));
      forall i | 0 <= i < |gs| ensures Holds(m, e, gs[i]) == (Holds(m, e, a) || Holds(m, e, b.parts[i])) {
        PairHoldsOr(m, e, a, b.parts[i]);
      }
      ConcatAndHolds(m, e, gs);
    } else {
      OrPartsHold(m, e, a); OrPartsHold(m, e, b);
      OrSplit(m, e, OrParts(a), OrParts(b));
    }
  }

  lemma {:induction false} PairAllHolds<D(!new)>(m: Structure<D>, e: Env<D>, ds: seq<Formula>)
    ensures Holds(m, e, PairAll(ds)) == Holds(m, e, Or(ds))
    decreases ds
  {
    if ds != [] {
      PairAllHolds(m, e, ds[1..]);
      ConsHolds(m, e, ds);
      if |ds| > 1 { PairHoldsOr(m, e, ds[0], PairAll(ds[1..])); }
    }
  }

  lemma {:induction false} DistributeHolds<D(!new)>(m: Structure<D>, e: Env<D>, f: Formula)
    ensures Holds(m, e, Distribute(f)) == Holds(m, e, f)
    decreases f
  {
    match f
    case And(fs) =>
      var gs := seq(|fs|, i requires 0 <= i < |fs| => Distribute(fs[i]));
      forall i | 0 <= i < |fs| ensures Holds(m, e, gs[i]) == Holds(m, e, fs[i]) { DistributeHolds(m, e, fs[i]); }
      ConcatAndHolds(m, e, gs);
      SameParts(m, m, e, gs, fs);
    case Or(fs) =>
      var gs := seq(|fs|, i requires 0 <= i < |fs| => Distribute(fs[i]));
      forall i | 0 <= i < |fs| ensures Holds(m, e, gs[i]) == Holds(m, e, fs[i]) { DistributeHolds(m, e, fs[i]); }
      PairAllHolds(m, e, gs);
      SameParts(m, m, e, gs, fs);
    case _ =>
  }

  /** CNF conversion is an equivalence under every assignment. */
  lemma ToCnfHolds<D(!new)>(m: Structure<D>, e: Env<D>, f: Formula)
    ensures Holds(m, e, ToCnf(f)) == Holds(m, e, f)
  {
    FlattenHolds(m, e, f);
    DistributeHolds(m, e, Flatten(f));
  }

  // ----- shape and exact clause count

  ghost predicate AllMatrix(fs: seq<Formula>, n: SymbolId) {
    forall i :: 0 <= i < |fs| ==> IsMatrix(fs[i]) && SymsBelow(fs[i], n)
  }

  lemma {:induction false} ConcatMatrix(fs: seq<Formula>, n: SymbolId)
    requires AllMatrix(fs, n)
    ensures AllMatrix(ConcatAnd(fs), n) && AllMatrix(ConcatOr(fs), n)
  {
    if fs != [] { ConcatMatrix(fs[1..], n); }
  }

  lemma {:induction false} FlattenMatrix(f: Formula, n: SymbolId)
    requires IsMatrix(f) && SymsBelow(f, n)
    ensures IsMatrix(Flatten(f)) && SymsBelow(Flatten(f), n)
    decreases f
  {
    match f
    case And(fs) =>
      forall i | 0 <= i < |fs| { FlattenMatrix(fs[i], n); }
      ConcatMatrix(seq(|fs|, i requires 0 <= i < |fs| => Flatten(fs[i])), n);
    case Or(fs) =>
      forall i | 0 <= i < |fs| { FlattenMatrix(fs[i], n); }
      ConcatMatrix(seq(|fs|, i requires 0 <= i < |fs| => Flatten(fs[i])), n);
    case _ =>
  }

  ghost predicate CnfBelow(f: Formula, n: SymbolId) { IsCnf(f) && SymsBelow(f, n) }

  lemma {:induction false} ConcatCnf(fs: seq<Formula>, n: SymbolId)
    requires forall i :: 0 <= i < |fs| ==> CnfBelow(fs[i], n)
    ensures CnfBelow(And(ConcatAnd(fs)), n)
  {
    if fs != [] { ConcatCnf(fs[1..], n); }
  }

  lemma {:induction false} PairCnf(a: Formula, b: Formula, n: SymbolId)
    requires CnfBelow(a, n) && CnfBelow(b, n)
    ensures CnfBelow(Pair(a, b), n)
    decreases a, b
  {
    if a.And? {
      forall i | 0 <= i < |a.parts| { PairCnf(a.parts[i], b, n); }
      ConcatCnf(seq(|a.parts|, i requires 0 <= i < |a.parts| => Pair(a.parts[i], b)), n);
    } else if b.And? {
      forall i | 0 <= i < |b.parts| { PairCnf(a, b.parts[i], n); }
      ConcatCnf(seq(|b.parts|, i requires 0 <= i < |b.parts| => Pair(a, b.parts[i])), n);
    }
  }

  lemma {:induction false} PairAllCnf(ds: seq<Formula>, n: SymbolId)
    requires forall i :: 0 <= i < |ds| ==> CnfBelow(ds[i], n)
    ensures CnfBelow(PairAll(ds), n)
  {
    if |ds| > 1 { PairAllCnf(ds[1..], n); PairCnf(ds[0], PairAll(ds[1..]), n); }
  }

  lemma {:induction false} DistributeCnf(f: Formula, n: SymbolId)
    requires IsMatrix(f) && SymsBelow(f, n)
    ensures CnfBelow(Distribute(f), n)
    decreases f
  {
    match f
    case And(fs) =>
      forall i | 0 <= i < |fs| { DistributeCnf(fs[i], n); }
      ConcatCnf(seq(|fs|, i requires 0 <= i < |fs| => Distribute(fs[i])), n);
    case Or(fs) =>
      forall i | 0 <= i < |fs| { DistributeCnf(fs[i], n); }
      PairAllCnf(seq(|fs|, i requires 0 <= i < |fs| => Distribute(fs[i])), n);
    case _ =>
  }

  /** On quantifier-free NNF input the result is a conjunction of disjunctions of literals. */
  lemma ToCnfShape(f: Formula, n: SymbolId)
    requires IsMatrix(f) && SymsBelow(f, n)
    ensures IsCnf(ToCnf(f)) && SymsBelow(ToCnf(f), n)
  {
    FlattenMatrix(f, n);
    DistributeCnf(Flatten(f), n);
  }

  // ----- the loops that extend local vectors

  lemma ConcatOne(f: Formula)
    ensures ConcatAnd([f]) == AndParts(f) && ConcatOr([f]) == OrParts(f)
  {
    assert [f][1..] == [] && AndParts(f) + [] == AndParts(f) && OrParts(f) + [] == OrParts(f);
  }

  lemma {:induction false} ConcatAndSnoc(fs: seq<Formula>, f: Formula)
    ensures ConcatAnd(fs + [f]) == ConcatAnd(fs) + AndParts(f)
  {
    if fs == [] {
      ConcatOne(f);
      assert [] + [f] == [f] && [] + AndParts(f) == AndParts(f);
    } else {
      ConcatAndSnoc(fs[1..], f);
      assert (fs + [f])[1..] == fs[1..] + [f];
      assert AndParts(fs[0]) + (ConcatAnd(fs[1..]) + AndParts(f)) == AndParts(fs[0]) + ConcatAnd(fs[1..]) + AndParts(f);
    }
  }

  lemma {:induction false} ConcatOrSnoc(fs: seq<Formula>, f: Formula)
    ensures ConcatOr(fs + [f]) == ConcatOr(fs) + OrParts(f)
  {
    if fs == [] {
      ConcatOne(f);
      assert [] + [f] == [f] && [] + OrParts(f) == OrParts(f);
    } else {
      ConcatOrSnoc(fs[1..], f);
      assert (fs + [f])[1..] == fs[1..] + [f];
      assert OrParts(fs[0]) + (ConcatOr(fs[1..]) + OrParts(f)) == OrParts(fs[0]) + ConcatOr(fs[1..]) + OrParts(f);
    }
  }

  lemma FlattenIs(fs: seq<Formula>, gs: seq<Formula>)
    requires |gs| == |fs| && forall k :: 0 <= k < |fs| ==> gs[k] == Flatten(fs[k])
    ensures Flatten(And(fs)) == And(ConcatAnd(gs)) && Flatten(Or(fs)) == Or(ConcatOr(gs))
  {
    assert gs == seq(|fs|, i requires 0 <= i < |fs| => Flatten(fs[i]));
  }

  method FlattenConnectives(f: Formula) returns (r: Formula)
    ensures r == Flatten(f)
    decreases f
  {
    if f.And? {
      ghost var done: seq<Formula> := [];
      var flat: seq<Formula> := [];
      for i := 0 to |f.parts|
        invariant |done| == i && forall k :: 0 <= k < i ==> done[k] == Flatten(f.parts[k])
        invariant flat == ConcatAnd(done)
      {
        var g := FlattenConnectives(f.parts[i]);
        ConcatAndSnoc(done, g);
        flat, done := flat + AndParts(g), done + [g];
      }
      FlattenIs(f.parts, done);
      r := And(flat);
    } else if f.Or? {
      ghost var done: seq<Formula> := [];
      var flat: seq<Formula> := [];
      for i := 0 to |f.parts|
        invariant |done| == i && forall k :: 0 <= k < i ==> done[k] == Flatten(f.parts[k])
        invariant flat == ConcatOr(done)
      {
        var g := FlattenConnectives(f.parts[i]);
        ConcatOrSnoc(done, g);
        flat, done := flat + OrParts(g), done + [g];
      }
      FlattenIs(f.parts, done);
      r := Or(flat);
    } else if f.Neg? {
      r := FlattenConnectives(f.inner);
      r := Neg(r);
    } else {
      r := f;
    }
  }

  method DistributeOrPair(a: Formula, b: Formula) returns (r: Formula)
    ensures r == Pair(a, b)
    decreases a, b, 1
  {
    if a.And? {
      ghost var all := seq(|a.parts|, i requires 0 <= i < |a.parts| => Pair(a.parts[i], b));
      PairLeft(a, b, all);
      var parts := DistributeLeft(a, b, all);
      r := And(parts);
    } else if b.And? {
      ghost var all := seq(|b.parts|, i requires 0 <= i < |b.parts| => Pair(a, b.parts[i]));
      PairRight(a, b, all);
      var parts := DistributeRight(a, b, all);
      r := And(parts);
    } else {
      var ds := if a.Or? then a.parts else [a];
      ds := ds + if b.Or? then b.parts else [b];
      r := Or(ds);
    }
  }

  lemma PairLeft(a: Formula, b: Formula, gs: seq<Formula>)
    requires a.And? && |gs| == |a.parts| && forall k :: 0 <= k < |gs| ==> gs[k] == Pair(a.parts[k], b)
    ensures Pair(a, b) == And(ConcatAnd(gs))
  {
    assert gs == seq(|a.parts|, i requires 0 <= i < |a.parts| => Pair(a.parts[i], b));
  }

  lemma PairRight(a: Formula, b: Formula, gs: seq<Formula>)
    requires !a.And? && b.And? && |gs| == |b.parts| && forall k :: 0 <= k < |gs| ==> gs[k] == Pair(a, b.parts[k])
    ensures Pair(a, b) == And(ConcatAnd(gs))
  {
    assert gs == seq(|b.parts|, i requires 0 <= i < |b.parts| => Pair(a, b.parts[i]));
  }

  method DistributeLeft(a: Formula, b: Formula, ghost all: seq<Formula>) returns (parts: seq<Formula>)
    requires a.And? && |all| == |a.parts| && forall k :: 0 <= k < |all| ==> all[k] == Pair(a.parts[k], b)
    ensures parts == ConcatAnd(all)
    decreases a, b, 0
  {
    parts := [];
    assert all[..0] == [];
    for i := 0 to |a.parts|
      invariant parts == ConcatAnd(all[..i])
    {
      var g := DistributeOrPair(a.parts[i], b);
      ConcatAndSnoc(all[..i], g);
      assert all[..i + 1] == all[..i] + [g];
      parts := parts + AndParts(g);
    }
    assert all[..|all|] == all;
  }

  method DistributeRight(a: Formula, b: Formula, ghost all: seq<Formula>) returns (parts: seq<Formula>)
    requires !a.And? && b.And? && |all| == |b.parts| && forall k :: 0 <= k < |all| ==> all[k] == Pair(a, b.parts[k])
    ensures parts == ConcatAnd(all)
    decreases a, b, 0
  {
    parts := [];
    assert all[..0] == [];
    for i := 0 to |b.parts|
      invariant parts == ConcatAnd(all[..i])
    {
      var g := DistributeOrPair(a, b.parts[i]);
      ConcatAndSnoc(all[..i], g);
      assert all[..i + 1] == all[..i] + [g];
      parts := parts + AndParts(g);
    }
    assert all[..|all|] == all;
  }

  method DistributeOrList(ds: seq<Formula>) returns (r: Formula)
    ensures r == PairAll(ds)
    decreases |ds|
  {
    if ds == [] { return False; }
    if |ds| == 1 { return ds[0]; }
    var rest := DistributeOrList(ds[1..]);
    r := DistributeOrPair(ds[0], rest);
  }

  method DistributeFormula(f: Formula) returns (r: Formula)
    ensures r == Distribute(f)
    decreases f
  {
    match f
    case And(fs) =>
      var parts := DistributeEach(fs);
      var result: seq<Formula> := [];
      assert parts[..0] == [];
      for i := 0 to |parts|
        invariant result == ConcatAnd(parts[..i])
      {
        assert parts[..i + 1] == parts[..i] + [parts[i]];
        ConcatAndSnoc(parts[..i], parts[i]);
        result := result + if parts[i].And? then parts[i].parts else [parts[i]];
      }
      assert parts[..|parts|] == parts;
      assert parts == seq(|fs|, i requires 0 <= i < |fs| => Distribute(fs[i]));
      r := And(result);
    case Or(fs) =>
      var parts := DistributeEach(fs);
      assert parts == seq(|fs|, i requires 0 <= i < |fs| => Distribute(fs[i]));
      r := DistributeOrList(parts);
    case _ => r := f;
  }

  method DistributeEach(fs: seq<Formula>) returns (gs: seq<Formula>)
    ensures |gs| == |fs| && forall i :: 0 <= i < |fs| ==> gs[i] == Distribute(fs[i])
    decreases fs
  {
    gs := [];
    for i := 0 to |fs|
      invariant |gs| == i && forall k :: 0 <= k < i ==> gs[k] == Distribute(fs[k])
    {
      var g := DistributeFormula(fs[i]);
      gs := gs + [g];
    }
  }

  /** `to_cnf`. */
  method ConvertToCnf(f: Formula) returns (r: Formula)
    ensures r == ToCnf(f)
  {
    var flat := FlattenConnectives(f);
    r := DistributeFormula(flat);
  }
}
