/** Clause extraction from CNF formulas, and the final simplification of the clause list. */
module Extraction {
  import opened Wrappers
  import opened Fol
  import opened Distribution

  datatype Literal = Literal(positive: bool, atom: Atom)

  type Clause = seq<Literal>

  /** `collect_literals`: literals, a tautology (`$true` was met), or the panic on a non-literal. */
  datatype Collected = Lits(lits: Clause) | Tautology | Panic

  function Collect(f: Formula): Collected
    decreases f, 0
  {
    match f
    case Or(ds) => CollectAll(ds)
    case AtomF(a) => Lits([Literal(true, a)])
    case Neg(g) => if g.AtomF? then Lits([Literal(false, g.atom)]) else Panic
    case True => Tautology
    case False => Lits([])
    case _ => Panic
  }

  /** The loop over disjuncts stops at the first tautology, before it could reach a panic. */
  function CollectAll(ds: seq<Formula>): Collected
    decreases ds, 1
  {
    if ds == [] then Lits([]) else
    match Collect(ds[0])
    case Panic => Panic
    case Tautology => Tautology
    case Lits(a) => Append(a, CollectAll(ds[1..]))
  }

  function Append(a: Clause, c: Collected): Collected { if c.Lits? then Lits(a + c.lits) else c }

  datatype Extracted = Clauses(clauses: seq<Clause>) | ExtractPanic

  /** `extract_rec`. */
  function Extract(f: Formula): Extracted
    decreases f, 0
  {
    match f
    case And(fs) => ExtractAll(fs)
    case True => Clauses([])
    case False => Clauses([[]])
    case _ =>
      match Collect(f)
      case Lits(c) => Clauses([c])
      case Tautology => Clauses([])
      case Panic => ExtractPanic
  }

  function ExtractAll(fs: seq<Formula>): Extracted
    decreases fs, 1
  {
    if fs == [] then Clauses([]) else
    match Extract(fs[0])
    case ExtractPanic => ExtractPanic
    case Clauses(a) => Join(a, ExtractAll(fs[1..]))
  }

  function Join(a: seq<Clause>, c: Extracted): Extracted { if c.Clauses? then Clauses(a + c.clauses) else c }

  // ----- meaning

  ghost predicate LiteralHolds<D(!new)>(m: Structure<D>, e: Env<D>, l: Literal) {
    l.positive == AtomHolds(m, e, l.atom)
  }

  ghost predicate ClauseHolds<D(!new)>(m: Structure<D>, e: Env<D>, c: Clause) {
    exists i :: 0 <= i < |c| && LiteralHolds(m, e, c[i])
  }

  ghost predicate ClausesHold<D(!new)>(m: Structure<D>, e: Env<D>, cs: seq<Clause>) {
    forall i :: 0 <= i < |cs| ==> ClauseHolds(m, e, cs[i])
  }

  /** Every clause is true in `m` under every assignment. */
  ghost predicate Models<D(!new)>(m: Structure<D>, cs: seq<Clause>) {
    forall e: Env<D> :: ClausesHold(m, e, cs)
  }

  lemma ClauseSplit<D(!new)>(m: Structure<D>, e: Env<D>, p: Clause, q: Clause)
    ensures ClauseHolds(m, e, p + q) == (ClauseHolds(m, e, p) || ClauseHolds(m, e, q))
  {
    if ClauseHolds(m, e, p) {
      var i :| 0 <= i < |p| && LiteralHolds(m, e, p[i]);
      assert (p + q)[i] == p[i];
    }
    if ClauseHolds(m, e, q) {
      var i :| 0 <= i < |q| && LiteralHolds(m, e, q[i]);
      assert (p + q)[|p| + i] == q[i];
    }
  }

  lemma ClausesSplit<D(!new)>(m: Structure<D>, e: Env<D>, p: seq<Clause>, q: seq<Clause>)
    ensures ClausesHold(m, e, p + q) == (ClausesHold(m, e, p) && ClausesHold(m, e, q))
  {
    if ClausesHold(m, e, p + q) {
      forall i | 0 <= i < |p| ensures ClauseHolds(m, e, p[i]) { assert (p + q)[i] == p[i]; }
      forall i | 0 <= i < |q| ensures ClauseHolds(m, e, q[i]) { assert (p + q)[|p| + i] == q[i]; }
    }
  }

  ghost predicate Means<D(!new)>(m: Structure<D>, e: Env<D>, c: Collected, f: Formula) {
    match c
    case Lits(lits) => ClauseHolds(m, e, lits) == Holds(m, e, f)
    case Tautology => Holds(m, e, f)
    case Panic => true
  }

  lemma {:induction false} CollectMeans<D(!new)>(m: Structure<D>, e: Env<D>, f: Formula)
    ensures Means(m, e, Collect(f), f)
    decreases f, 0
  {
    match f
    case Or(ds) => CollectAllMeans(m, e, ds);
    case AtomF(a) => assert [Literal(true, a)][0] == Literal(true, a);
    case Neg(g) => if g.AtomF? { assert [Literal(false, g.atom)][0] == Literal(false, g.atom); }
    case _ =>
  }

  lemma {:induction false} CollectAllMeans<D(!new)>(m: Structure<D>, e: Env<D>, ds: seq<Formula>)
    ensures Means(m, e, CollectAll(ds), Or(ds))
    decreases ds, 1
  {
    if ds != [] {
      CollectMeans(m, e, ds[0]);
      CollectAllMeans(m, e, ds[1..]);
      ConsHolds(m, e, ds);
      if Collect(ds[0]).Lits? && CollectAll(ds[1..]).Lits? {
        ClauseSplit(m, e, Collect(ds[0]).lits, CollectAll(ds[1..]).lits);
      }
    }
  }

  lemma SingleHolds<D(!new)>(m: Structure<D>, e: Env<D>, c: Clause)
    ensures ClausesHold(m, e, [c]) == ClauseHolds(m, e, c)
  {
    assert [c][0] == c;
  }

  /** Whenever extraction returns, the clauses mean what the formula means. */
  lemma {:induction false} ExtractMeans<D(!new)>(m: Structure<D>, e: Env<D>, f: Formula)
    requires Extract(f).Clauses?
    ensures ClausesHold(m, e, Extract(f).clauses) == Holds(m, e, f)
    decreases f, 0
  {
    match f
    case And(fs) => ExtractAllMeans(m, e, fs);
    case True =>
    case False => assert Extract(f).clauses[0] == [];
    case AtomF(_) => CollectMeans(m, e, f); SingleHolds(m, e, Collect(f).lits);
    case Neg(_) => CollectMeans(m, e, f); SingleHolds(m, e, Collect(f).lits);
    case Or(_) =>
      CollectMeans(m, e, f);
      if Collect(f).Lits? { SingleHolds(m, e, Collect(f).lits); }
    case _ =>
  }

  lemma {:induction false} ExtractAllMeans<D(!new)>(m: Structure<D>, e: Env<D>, fs: seq<Formula>)
    requires ExtractAll(fs).Clauses?
    ensures ClausesHold(m, e, ExtractAll(fs).clauses) == Holds(m, e, And(fs))
    decreases fs, 1
  {
    if fs != [] {
      ExtractMeans(m, e, fs[0]);
      ExtractAllMeans(m, e, fs[1..]);
      ConsHolds(m, e, fs);
      ClausesSplit(m, e, Extract(fs[0]).clauses, ExtractAll(fs[1..]).clauses);
    }
  }

  lemma {:induction false} CollectAllTotal(ds: seq<Formula>)
    requires forall i :: 0 <= i < |ds| ==> IsLiteral(ds[i])
    ensures !CollectAll(ds).Panic?
  {
    if ds != [] { CollectAllTotal(ds[1..]); }
  }

  lemma {:induction false} ExtractAllTotal(fs: seq<Formula>)
    requires forall i :: 0 <= i < |fs| ==> IsClause(fs[i])
    ensures ExtractAll(fs).Clauses?
  {
    if fs != [] {
      if fs[0].Or? { CollectAllTotal(fs[0].parts); }
      ExtractAllTotal(fs[1..]);
    }
  }

  /** On CNF input the panicking branches are unreachable. */
  lemma ExtractTotal(f: Formula)
    requires IsCnf(f)
    ensures Extract(f).Clauses?
  {
    if f.Or? { CollectAllTotal(f.parts); }
    if f.And? { ExtractAllTotal(f.parts); }
  }

  // ----- simplification: tautology deletion and duplicate literal removal

  predicate IsTautology(c: Clause) {
    || (exists i :: 0 <= i < |c| && c[i].positive && c[i].atom.Eq? && c[i].atom.left == c[i].atom.right)
    || (exists i, j :: 0 <= i < j < |c| && c[i].positive != c[j].positive && c[i].atom == c[j].atom)
  }

  function Dedup(c: Clause, seen: set<Literal>): (r: Clause)
    ensures forall l :: l in r <==> l in c && l !in seen
    ensures forall i, j :: 0 <= i < j < |r| ==> r[i] != r[j]
  {
    if c == [] then [] else
    if c[0] in seen then Dedup(c[1..], seen) else [c[0]] + Dedup(c[1..], seen + {c[0]})
  }

  function Simplify(cs: seq<Clause>): seq<Clause> {
    if cs == [] then []
    else if IsTautology(cs[0]) then Simplify(cs[1..])
    else [Dedup(cs[0], {})] + Simplify(cs[1..])
  }

  lemma DedupHolds<D(!new)>(m: Structure<D>, e: Env<D>, c: Clause)
    ensures ClauseHolds(m, e, Dedup(c, {})) == ClauseHolds(m, e, c)
  {
    var r := Dedup(c, {});
    if ClauseHolds(m, e, c) {
      var i :| 0 <= i < |c| && LiteralHolds(m, e, c[i]);
      assert c[i] in r;
      var j :| 0 <= j < |r| && r[j] == c[i];
    }
    if ClauseHolds(m, e, r) {
      var i :| 0 <= i < |r| && LiteralHolds(m, e, r[i]);
      assert r[i] in c;
      var j :| 0 <= j < |c| && c[j] == r[i];
    }
  }

  lemma TautologyHolds<D(!new)>(m: Structure<D>, e: Env<D>, c: Clause)
    requires IsTautology(c)
    ensures ClauseHolds(m, e, c)
  {
    if i, j :| 0 <= i < j < |c| && c[i].positive != c[j].positive && c[i].atom == c[j].atom {
      assert LiteralHolds(m, e, c[i]) || LiteralHolds(m, e, c[j]);
    } else {
      var i :| 0 <= i < |c| && c[i].positive && c[i].atom.Eq? && c[i].atom.left == c[i].atom.right;
      assert LiteralHolds(m, e, c[i]);
    }
  }

  /** Simplification keeps the meaning of the clause set. */
  lemma {:induction false} SimplifyHolds<D(!new)>(m: Structure<D>, e: Env<D>, cs: seq<Clause>)
    ensures ClausesHold(m, e, Simplify(cs)) == ClausesHold(m, e, cs)
  {
    if cs != [] {
      assert cs == [cs[0]] + cs[1..];
      SimplifyHolds(m, e, cs[1..]);
      ClausesSplit(m, e, [cs[0]], cs[1..]);
      assert [cs[0]][0] == cs[0];
      if IsTautology(cs[0]) {
        TautologyHolds(m, e, cs[0]);
      } else {
        DedupHolds(m, e, cs[0]);
        ClausesSplit(m, e, [Dedup(cs[0], {})], Simplify(cs[1..]));
        assert [Dedup(cs[0], {})][0] == Dedup(cs[0], {});
      }
    }
  }

  /** Truth values for atoms, taken independently of each other except that a reflexive equation is true. */
  ghost predicate Reflexive(v: Atom -> bool) { forall t: Term :: v(Eq(t, t)) }

  ghost predicate TrueUnder(v: Atom -> bool, c: Clause) {
    exists i :: 0 <= i < |c| && c[i].positive == v(c[i].atom)
  }

  /** The deleted clauses are exactly those that are true under all such truth values. */
  lemma TautologyExact(c: Clause)
    ensures IsTautology(c) <==> forall v :: Reflexive(v) ==> TrueUnder(v, c)
  {
    if IsTautology(c) {
      forall v | Reflexive(v) ensures TrueUnder(v, c) {
        if i, j :| 0 <= i < j < |c| && c[i].positive != c[j].positive && c[i].atom == c[j].atom {
          assert c[i].positive == v(c[i].atom) || c[j].positive == v(c[j].atom);
        } else {
          var i :| 0 <= i < |c| && c[i].positive && c[i].atom.Eq? && c[i].atom.left == c[i].atom.right;
          assert v(Eq(c[i].atom.left, c[i].atom.left));
        }
      }
    } else {
      var v := (a: Atom) => (a.Eq? && a.left == a.right) || Literal(false, a) in c;
      assert Reflexive(v);
      forall i | 0 <= i < |c| ensures c[i].positive != v(c[i].atom) {
        assert c[i].positive || c[i] == Literal(false, c[i].atom);
      }
    }
  }

  /** The clauses that are no tautologies, in order. */
  function Proper(cs: seq<Clause>): seq<Clause> {
    if cs == [] then [] else (if IsTautology(cs[0]) then [] else [cs[0]]) + Proper(cs[1..])
  }

  ghost predicate Repeats(c: Clause) { exists i, j :: 0 <= i < j < |c| && c[i] == c[j] }

  ghost predicate SameLiterals(c: Clause, d: Clause) { forall l :: l in c <==> l in d }

  /** Simplification returns the clauses that are no tautologies, in order, each with the same
      literals and none twice. */
  lemma {:induction false} SimplifyExact(cs: seq<Clause>)
    ensures |Simplify(cs)| == |Proper(cs)|
    ensures forall i :: 0 <= i < |Proper(cs)| ==>
      SameLiterals(Simplify(cs)[i], Proper(cs)[i]) && !Repeats(Simplify(cs)[i]) && !IsTautology(Simplify(cs)[i])
  {
    if cs != [] {
      SimplifyExact(cs[1..]);
      if !IsTautology(cs[0]) { DedupProper(cs[0]); }
    }
  }

  lemma DedupProper(c: Clause)
    requires !IsTautology(c)
    ensures SameLiterals(Dedup(c, {}), c) && !Repeats(Dedup(c, {})) && !IsTautology(Dedup(c, {}))
  {
    var r := Dedup(c, {});
    forall i | 0 <= i < |r| ensures exists j :: 0 <= j < |c| && c[j] == r[i] { assert r[i] in c; }
  }

  // ----- the accumulating form

  /** A clause with the id drawn for it. */
  datatype Numbered = Numbered(id: nat, literals: Clause)

  function Literals(ns: seq<Numbered>): seq<Clause> { seq(|ns|, i requires 0 <= i < |ns| => ns[i].literals) }

  /** Ids are consecutive from `first`. */
  predicate Consecutive(ns: seq<Numbered>, first: nat) {
    forall i :: 0 <= i < |ns| ==> ns[i].id == first + i
  }

  /** `now` is `start` with the clauses `cs` pushed, numbered consecutively from `first`. */
  predicate Pushed(start: seq<Numbered>, now: seq<Numbered>, cs: seq<Clause>, first: nat, next: nat) {
    && start <= now
    && Literals(now[|start|..]) == cs
    && Consecutive(now[|start|..], first)
    && next == first + |cs|
  }

  lemma PushedTwice(start: seq<Numbered>, mid: seq<Numbered>, now: seq<Numbered>, cs: seq<Clause>, ds: seq<Clause>,
                    first: nat, id: nat, next: nat)
    requires Pushed(start, mid, cs, first, id) && Pushed(mid, now, ds, id, next)
    ensures Pushed(start, now, cs + ds, first, next)
  {
    assert now[|start|..] == mid[|start|..] + now[|mid|..];
    assert Literals(now[|start|..]) == Literals(mid[|start|..]) + Literals(now[|mid|..]);
  }

  /** The `&mut Vec` accumulators of one extraction and its id generator. */
  class Extractor {
    var clauses: seq<Numbered>
    var nextId: nat

    constructor (nextId: nat)
      ensures clauses == [] && this.nextId == nextId
    {
      clauses := [];
      this.nextId := nextId;
    }

    method Emit(c: Clause)
      modifies this
      ensures clauses == old(clauses) + [Numbered(old(nextId), c)] && nextId == old(nextId) + 1
    {
      clauses := clauses + [Numbered(nextId, c)];
      nextId := nextId + 1;
    }

    /** Pushes one clause per conjunct in order, numbering them consecutively. */
    method ExtractRec(f: Formula)
      requires Extract(f).Clauses?
      modifies this
      ensures Pushed(old(clauses), clauses, Extract(f).clauses, old(nextId), nextId)
      decreases f, 1
    {
      if f.And? {
        ExtractParts(f.parts);
      } else if f.False? {
        Emit([]);
      } else if !f.True? {
        var taut, lits := CollectInto(f, []);
        if !taut {
          Emit(lits);
          assert lits == Collect(f).lits;
          assert clauses[|old(clauses)|..] == [Numbered(old(nextId), lits)];
        }
      }
    }

    method ExtractParts(fs: seq<Formula>)
      requires ExtractAll(fs).Clauses?
      modifies this
      ensures Pushed(old(clauses), clauses, ExtractAll(fs).clauses, old(nextId), nextId)
      decreases fs, 0
    {
      ghost var start, done: seq<Clause> := clauses, [];
      assert fs[0..] == fs && start[|start|..] == [];
      for i := 0 to |fs|
        invariant ExtractAll(fs[i..]).Clauses?
        invariant Pushed(start, clauses, done, old(nextId), nextId)
        invariant done + ExtractAll(fs[i..]).clauses == ExtractAll(fs).clauses
      {
        assert fs[i..][1..] == fs[i + 1..];
        ghost var before, id, more := clauses, nextId, Extract(fs[i]).clauses;
        ExtractRec(fs[i]);
        PushedTwice(start, before, clauses, done, more, old(nextId), id, nextId);
        ConcatAssoc(done, more, ExtractAll(fs[i + 1..]).clauses);
        done := done + more;
      }
      assert fs[|fs|..] == [];
    }

    /** `collect_literals`, threading the literal buffer; `taut` reports `$true`. */
    method CollectInto(f: Formula, acc: Clause) returns (taut: bool, lits: Clause)
      requires !Collect(f).Panic?
      ensures taut == Collect(f).Tautology?
      ensures !taut ==> lits == acc + Collect(f).lits
      decreases f
    {
      lits := acc;
      taut := false;
      match f {
        case Or(ds) =>
          assert ds[0..] == ds;
          for i := 0 to |ds|
            invariant !CollectAll(ds[i..]).Panic?
            invariant Collect(f).Tautology? == CollectAll(ds[i..]).Tautology?
            invariant CollectAll(ds[i..]).Lits? ==> acc + Collect(f).lits == lits + CollectAll(ds[i..]).lits
          {
            assert ds[i..][1..] == ds[i + 1..];
            taut, lits := CollectInto(ds[i], lits);
            if taut { return; }
          }
          taut := false;
        case AtomF(a) => lits := lits + [Literal(true, a)];
        case Neg(g) => lits := lits + [Literal(false, g.atom)];
        case True => taut := true;
        case False =>
      }
    }
  }
}
