/** `to_nnf_bounded`: conversion that charges every node and refuses past a bound. */
module NnfBounded {
  import opened Wrappers
  import opened Fol
  import opened NormalForm

  /** The charge of a conversion under an even and under an odd number of negations, one per visit
      and one per node built, and the height of the formula. */
  datatype Bill = Bill(plain: nat, flipped: nat, height: nat) {
    function Cost(negated: bool): nat { if negated then flipped else plain }

    function Under(charge: nat): Bill { Bill(charge + plain, charge + flipped, 1 + height) }
  }

  function BillOf(f: Formula): Bill
    decreases f
  {
    match f
    case AtomF(_) => Bill(1, 2, 0)
    case Neg(g) => var b := BillOf(g); Bill(1 + b.flipped, 1 + b.plain, 1 + b.height)
    case And(fs) => var t := BillsOf(fs); Bill(2 + t.plain, 2 + t.flipped, t.height)
    case Or(fs) => var t := BillsOf(fs); Bill(2 + t.plain, 2 + t.flipped, t.height)
    case Implies(a, b) =>
      var x, y := BillOf(a), BillOf(b);
      Bill(2 + x.flipped + y.plain, 2 + x.plain + y.flipped, 1 + Max(x.height, y.height))
    case Iff(a, b) =>
      var x, y := BillOf(a), BillOf(b);
      var n := 4 + x.plain + x.flipped + y.plain + y.flipped;
      Bill(n, n, 1 + Max(x.height, y.height))
    case Forall(_, b) => BillOf(b).Under(2)
    case Exists(_, b) => BillOf(b).Under(2)
    case _ => Bill(1, 1, 0)
  }

  function BillsOf(fs: seq<Formula>): Bill
    decreases fs
  {
    Total(seq(|fs|, i requires 0 <= i < |fs| => BillOf(fs[i])))
  }

  function Total(bs: seq<Bill>): Bill {
    if bs == [] then Bill(0, 0, 0) else
    var t := Total(bs[1..]);
    Bill(bs[0].plain + t.plain, bs[0].flipped + t.flipped, Max(1 + bs[0].height, t.height))
  }

  /** The bill of a list from its first element. */
  lemma BillCons(fs: seq<Formula>)
    requires fs != []
    ensures var t, x, r := BillsOf(fs), BillOf(fs[0]), BillsOf(fs[1..]);
      t == Bill(x.plain + r.plain, x.flipped + r.flipped, Max(1 + x.height, r.height))
  {
    var bs := seq(|fs|, i requires 0 <= i < |fs| => BillOf(fs[i]));
    assert bs[1..] == seq(|fs[1..]|, i requires 0 <= i < |fs[1..]| => BillOf(fs[1..][i]));
  }

  lemma {:induction false} NnfSize(f: Formula, negated: bool)
    ensures Size(Nnf(f, negated)) <= BillOf(f).Cost(negated)
    decreases f, 0
  {
    if f.Neg? {
      NnfSize(f.inner, !negated);
    } else if f.And? || f.Or? {
      NnfSizes(f.parts, negated);
      ListSize(f, f.parts, negated);
    } else if f.Implies? {
      NnfSize(f.lhs, !negated);
      NnfSize(f.rhs, negated);
      ImpliesSize(f.lhs, f.rhs, negated);
    } else if f.Iff? {
      NnfSize(f.lhs, true);
      NnfSize(f.lhs, false);
      NnfSize(f.rhs, true);
      NnfSize(f.rhs, false);
      IffSize(f.lhs, f.rhs, negated);
    } else if f.Forall? || f.Exists? {
      NnfSize(f.body, negated);
    }
  }

  lemma ListSize(f: Formula, fs: seq<Formula>, negated: bool)
    requires f == And(fs) || f == Or(fs)
    ensures Size(Nnf(f, negated)) <= 1 + Sizes(NnfAll(fs, negated))
  {
    MkSize(NnfAll(fs, negated));
  }

  lemma ImpliesSize(a: Formula, b: Formula, negated: bool)
    ensures Size(Nnf(Implies(a, b), negated)) == 1 + Size(Nnf(a, !negated)) + Size(Nnf(b, negated))
  {
    PairSize(Nnf(a, !negated), Nnf(b, negated));
  }

  lemma IffSize(a: Formula, b: Formula, negated: bool)
    ensures Size(Nnf(Iff(a, b), negated)) ==
      3 + Size(Nnf(a, true)) + Size(Nnf(a, false)) + Size(Nnf(b, true)) + Size(Nnf(b, false))
  {
    var x := MkOr([Nnf(a, !negated), Nnf(b, false)]);
    var y := MkOr([Nnf(a, negated), Nnf(b, true)]);
    PairSize(Nnf(a, !negated), Nnf(b, false));
    PairSize(Nnf(a, negated), Nnf(b, true));
    PairSize(x, y);
    assert Nnf(Iff(a, b), negated) == MkAnd([x, y]);
  }

  lemma {:induction false} NnfSizes(fs: seq<Formula>, negated: bool)
    ensures Sizes(NnfAll(fs, negated)) <= BillsOf(fs).Cost(negated)
    decreases fs, 1
  {
    if fs != [] {
      BillCons(fs);
      NnfSize(fs[0], negated);
      NnfSizes(fs[1..], negated);
      assert NnfAll(fs, negated)[1..] == NnfAll(fs[1..], negated);
    }
  }

  class NodeBudget {
    const maxNodes: nat
    const maxDepth: nat
    var nodes: nat

    constructor (maxNodes: nat, maxDepth: nat)
      ensures this.maxNodes == maxNodes && this.maxDepth == maxDepth && nodes == 0
    {
      this.maxNodes := maxNodes;
      this.maxDepth := maxDepth;
      nodes := 0;
    }

    /** The increment and the test both places share. */
    method Charge() returns (ok: bool)
      modifies this
      ensures nodes == old(nodes) + 1 && ok == (nodes <= maxNodes)
    {
      nodes := nodes + 1;
      ok := nodes <= maxNodes;
    }

    ghost predicate Fits(cost: nat, depth: nat, height: nat)
      reads this
    {
      nodes + cost <= maxNodes && depth + height <= maxDepth
    }

    /** The answer is there exactly when the whole charge fits, and then it is the NNF. */
    method Visit(f: Formula, negated: bool, depth: nat) returns (r: Option<Formula>)
      modifies this
      ensures r.Some? <==> old(Fits(BillOf(f).Cost(negated), depth, BillOf(f).height))
      ensures r.Some? ==> r.value == Nnf(f, negated) && nodes == old(nodes) + BillOf(f).Cost(negated)
      decreases f, 3
    {
      if depth > maxDepth { return None; }
      var ok := Charge();
      if !ok { return None; }
      if f.And? || f.Or? {
        r := VisitJunction(f, negated, depth);
      } else if f.Implies? || f.Iff? {
        r := VisitArrow(f, negated, depth);
      } else if f.Forall? || f.Exists? {
        r := VisitQuantifier(f, negated, depth);
      } else if f.Neg? {
        r := Visit(f.inner, !negated, depth + 1);
      } else {
        r := VisitLeaf(f, negated);
      }
    }

    /** The charge that is left once the visit itself is paid. */
    ghost predicate FitsRest(f: Formula, negated: bool, depth: nat)
      reads this
    {
      nodes + BillOf(f).Cost(negated) - 1 <= maxNodes && depth + BillOf(f).height <= maxDepth
    }

    method VisitJunction(f: Formula, negated: bool, depth: nat) returns (r: Option<Formula>)
      requires (f.And? || f.Or?) && nodes <= maxNodes && depth <= maxDepth
      modifies this
      ensures r.Some? <==> old(FitsRest(f, negated, depth))
      ensures r.Some? ==> r.value == Nnf(f, negated) && nodes == old(nodes) + BillOf(f).Cost(negated) - 1
      decreases f, 1
    {
      r := VisitList(f.parts, negated, depth + 1, f.And? != negated);
    }

    method VisitArrow(f: Formula, negated: bool, depth: nat) returns (r: Option<Formula>)
      requires (f.Implies? || f.Iff?) && nodes <= maxNodes && depth <= maxDepth
      modifies this
      ensures r.Some? <==> old(FitsRest(f, negated, depth))
      ensures r.Some? ==> r.value == Nnf(f, negated) && nodes == old(nodes) + BillOf(f).Cost(negated) - 1
      decreases f, 2
    {
      if f.Implies? {
        r := VisitPair(f, f.lhs, !negated, f.rhs, negated, depth + 1, negated);
      } else {
        r := VisitIff(f, f.lhs, f.rhs, negated, depth + 1);
      }
    }

    method VisitQuantifier(f: Formula, negated: bool, depth: nat) returns (r: Option<Formula>)
      requires (f.Forall? || f.Exists?) && nodes <= maxNodes && depth <= maxDepth
      modifies this
      ensures r.Some? <==> old(FitsRest(f, negated, depth))
      ensures r.Some? ==> r.value == Nnf(f, negated) && nodes == old(nodes) + BillOf(f).Cost(negated) - 1
      decreases f, 1
    {
      r := VisitBinder(f.bound, f.body, negated, depth + 1, f.Forall? != negated);
    }

    method VisitLeaf(f: Formula, negated: bool) returns (r: Option<Formula>)
      requires (f.AtomF? || f.True? || f.False?) && nodes <= maxNodes
      modifies this
      ensures r.Some? <==> old(nodes) + BillOf(f).Cost(negated) - 1 <= maxNodes
      ensures r.Some? ==> r.value == Nnf(f, negated) && nodes == old(nodes) + BillOf(f).Cost(negated) - 1
      decreases f, 1
    {
      if f.True? { return Some(if negated then False else True); }
      if f.False? { return Some(if negated then True else False); }
      if !negated { return Some(f); }
      r := Build(Neg(f));
    }

    method VisitList(fs: seq<Formula>, negated: bool, depth: nat, conjunction: bool) returns (r: Option<Formula>)
      requires nodes <= maxNodes && 0 < depth <= maxDepth + 1
      modifies this
      ensures r.Some? <==> old(Fits(1 + BillsOf(fs).Cost(negated), depth - 1, BillsOf(fs).height))
      ensures r.Some? ==>
        && r.value == (if conjunction then MkAnd(NnfAll(fs, negated)) else MkOr(NnfAll(fs, negated)))
        && nodes == old(nodes) + 1 + BillsOf(fs).Cost(negated)
      decreases fs, 1
    {
      var gs := VisitAll(fs, negated, depth);
      if gs.None? { return None; }
      r := Build(if conjunction then MkAnd(gs.value) else MkOr(gs.value));
    }

    method VisitBinder(v: VarId, b: Formula, negated: bool, depth: nat, universal: bool) returns (r: Option<Formula>)
      modifies this
      ensures r.Some? <==> old(Fits(1 + BillOf(b).Cost(negated), depth, BillOf(b).height))
      ensures r.Some? ==>
        && r.value == (if universal then Forall(v, Nnf(b, negated)) else Exists(v, Nnf(b, negated)))
        && nodes == old(nodes) + 1 + BillOf(b).Cost(negated)
      decreases b, 4
    {
      var g := Visit(b, negated, depth);
      if g.None? { return None; }
      r := Build(if universal then Forall(v, g.value) else Exists(v, g.value));
    }

    method VisitIff(ghost f: Formula, a: Formula, b: Formula, negated: bool, depth: nat) returns (r: Option<Formula>)
      requires f == Iff(a, b)
      modifies this
      ensures r.Some? <==>
        old(Fits(3 + BillOf(a).plain + BillOf(a).flipped + BillOf(b).plain + BillOf(b).flipped, depth,
          Max(BillOf(a).height, BillOf(b).height)))
      ensures r.Some? ==>
        && r.value == MkAnd([MkOr([Nnf(a, !negated), Nnf(b, false)]), MkOr([Nnf(a, negated), Nnf(b, true)])])
        && nodes == old(nodes) + 3 + BillOf(a).plain + BillOf(a).flipped + BillOf(b).plain + BillOf(b).flipped
      decreases f, 1
    {
      var x := VisitPair(f, a, !negated, b, false, depth, false);
      if x.None? { return None; }
      var y := VisitPair(f, a, negated, b, true, depth, false);
      if y.None? { return None; }
      r := Build(MkAnd([x.value, y.value]));
    }

    /** `make`. */
    method Build(node: Formula) returns (r: Option<Formula>)
      modifies this
      ensures nodes == old(nodes) + 1 && r == if nodes <= maxNodes then Some(node) else None
    {
      var ok := Charge();
      r := if ok then Some(node) else None;
    }

    method VisitPair(ghost f: Formula, a: Formula, an: bool, b: Formula, bn: bool, depth: nat, conjunction: bool)
      returns (r: Option<Formula>)
      requires a < f && b < f
      modifies this
      ensures r.Some? <==> old(Fits(1 + BillOf(a).Cost(an) + BillOf(b).Cost(bn), depth,
        Max(BillOf(a).height, BillOf(b).height)))
      ensures r.Some? ==>
        && r.value == (if conjunction then MkAnd([Nnf(a, an), Nnf(b, bn)]) else MkOr([Nnf(a, an), Nnf(b, bn)]))
        && nodes == old(nodes) + 1 + BillOf(a).Cost(an) + BillOf(b).Cost(bn)
      decreases f, 0
    {
      var x := Visit(a, an, depth);
      if x.None? { return None; }
      var y := Visit(b, bn, depth);
      if y.None? { return None; }
      r := Build(if conjunction then MkAnd([x.value, y.value]) else MkOr([x.value, y.value]));
    }

    method VisitAll(fs: seq<Formula>, negated: bool, depth: nat) returns (r: Option<seq<Formula>>)
      requires nodes <= maxNodes && 0 < depth <= maxDepth + 1
      modifies this
      ensures r.Some? <==> old(Fits(BillsOf(fs).Cost(negated), depth - 1, BillsOf(fs).height))
      ensures r.Some? ==> r.value == NnfAll(fs, negated) && nodes == old(nodes) + BillsOf(fs).Cost(negated)
      decreases fs, 0
    {
      var gs: seq<Formula> := [];
      assert fs[0..] == fs;
      for i := 0 to |fs|
        invariant nodes <= maxNodes
        invariant old(Fits(BillsOf(fs).Cost(negated), depth - 1, BillsOf(fs).height)) <==>
          Fits(BillsOf(fs[i..]).Cost(negated), depth - 1, BillsOf(fs[i..]).height)
        invariant |gs| == i && (forall k :: 0 <= k < i ==> gs[k] == Nnf(fs[k], negated))
        invariant nodes + BillsOf(fs[i..]).Cost(negated) == old(nodes) + BillsOf(fs).Cost(negated)
      {
        assert fs[i..][1..] == fs[i + 1..];
        BillCons(fs[i..]);
        var g := Visit(fs[i], negated, depth);
        if g.None? { return None; }
        gs := gs + [g.value];
      }
      assert fs[|fs|..] == [];
      r := Some(gs);
    }
  }

  /** `Some` exactly when the charge and the height fit; then the NNF, of at most `maxNodes` nodes. */
  method ToNnfBounded(f: Formula, maxNodes: nat, maxDepth: nat) returns (r: Option<Formula>)
    ensures r.Some? <==> BillOf(f).plain <= maxNodes && BillOf(f).height <= maxDepth
    ensures r.Some? ==> r.value == ToNnf(f) && Size(r.value) <= maxNodes
  {
    var budget := new NodeBudget(maxNodes, maxDepth);
    r := budget.Visit(f, false, 0);
    NnfSize(f, false);
  }
}
