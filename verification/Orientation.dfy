/** When the subsumption search finds a substitution whenever there is one. An equation commits to
    the first orientation that matches, so the answer depends on whether that choice matters. */
module Orientation {
  import opened Wrappers
  import opened Fol
  import opened TermOrder
  import opened Matching
  import opened Extraction
  import opened Rewriting
  import opened Subsumption
  import PathOrder
  import KnuthBendix

  // ----- when the committed orientation does not matter

  /** `f` sends the sides to a target straight, and `g` the other way round. */
  ghost predicate Swaps(f: VarId -> Term, g: VarId -> Term, l: Term, r: Term) {
    Instance(f, l) == Instance(g, r) && Instance(f, r) == Instance(g, l)
  }

  ghost predicate SameOn(f: VarId -> Term, g: VarId -> Term, vars: set<VarId>) {
    forall v :: v in vars ==> f(v) == g(v)
  }

  /** Two substitutions that send `l = r` to one target in both orientations, and agree on the
      variables bound before, agree on the variables needed later. */
  ghost predicate Decided(l: Term, r: Term, before: set<VarId>, later: set<VarId>) {
    forall f: VarId -> Term, g: VarId -> Term :: Swaps(f, g, l, r) && SameOn(f, g, before) ==>
      SameOn(f, g, later * (TermVars(l) + TermVars(r)))
  }

  function ClauseVars(c: Clause): set<VarId> {
    if c == [] then {} else AtomVars(c[0].atom) + ClauseVars(c[1..])
  }

  lemma {:induction false} VarsAt(c: Clause, i: nat)
    requires i < |c|
    ensures AtomVars(c[i].atom) <= ClauseVars(c)
  {
    if i > 0 { VarsAt(c[1..], i - 1); }
  }

  /** Every equation is decided by the variables of the literals before it. */
  ghost predicate Settled(c: Clause, before: set<VarId>) {
    c == [] || (
      && (c[0].atom.Eq? ==> Decided(c[0].atom.left, c[0].atom.right, before, ClauseVars(c[1..])))
      && Settled(c[1..], before + AtomVars(c[0].atom)))
  }

  lemma {:induction false} InstanceInjective(f: VarId -> Term, g: VarId -> Term, t: Term)
    requires Instance(f, t) == Instance(g, t)
    ensures SameOn(f, g, TermVars(t))
    decreases t
  {
    if t.App? {
      forall v | v in TermVars(t) ensures f(v) == g(v) {
        var i :| 0 <= i < |t.args| && v in TermVars(t.args[i]);
        assert Instances(f, t.args)[i] == Instances(g, t.args)[i];
        InstanceInjective(f, g, t.args[i]);
      }
    }
  }

  // ----- sufficient checks

  /** No instance of one term is an instance of the other: function symbols clash somewhere. */
  predicate Clash(l: Term, r: Term) {
    && l.App? && r.App?
    && (|| l.sym != r.sym || |l.args| != |r.args|
        || exists i :: 0 <= i < |l.args| && Clash(l.args[i], r.args[i]))
  }

  lemma {:induction false} ClashApart(f: VarId -> Term, g: VarId -> Term, l: Term, r: Term)
    requires Clash(l, r)
    ensures Instance(f, l) != Instance(g, r)
    decreases l
  {
    if l.sym == r.sym && |l.args| == |r.args| {
      var i :| 0 <= i < |l.args| && Clash(l.args[i], r.args[i]);
      ClashApart(f, g, l.args[i], r.args[i]);
      assert Instances(f, l.args)[i] != Instances(g, r.args)[i];
    }
  }

  /** What a caller can compute: the sides are comparable in either reduction ordering, clash,
      or bind nothing new that a later literal needs. */
  predicate PlainEquation(o: PathOrder.Lpo, w: SymbolConfig, l: Term, r: Term, before: set<VarId>, later: set<VarId>) {
    || PathOrder.Compare(o, l, r) != Incomparable
    || KnuthBendix.Compare(w, l, r, true) != Incomparable
    || Clash(l, r)
    || later * (TermVars(l) + TermVars(r)) <= before
  }

  predicate Plain(o: PathOrder.Lpo, w: SymbolConfig, c: Clause, before: set<VarId>) {
    c == [] || (
      && (c[0].atom.Eq? ==> PlainEquation(o, w, c[0].atom.left, c[0].atom.right, before, ClauseVars(c[1..])))
      && Plain(o, w, c[1..], before + AtomVars(c[0].atom)))
  }

  /** A stable strict order rules out that both orientations match one target. */
  lemma LpoOrients(o: PathOrder.Lpo, l: Term, r: Term, f: VarId -> Term, g: VarId -> Term)
    requires PathOrder.Gt(o, l, r)
    ensures !Swaps(f, g, l, r) && !Swaps(f, g, r, l)
  {
    PathOrder.Stable(o, f, l, r);
    PathOrder.Stable(o, g, l, r);
    if Swaps(f, g, l, r) || Swaps(f, g, r, l) {
      PathOrder.Transitive(o, Instance(f, l), Instance(f, r), Instance(f, l));
      PathOrder.Irreflexive(o, Instance(f, l));
    }
  }

  lemma KboOrients(w: SymbolConfig, l: Term, r: Term, f: VarId -> Term, g: VarId -> Term)
    requires KnuthBendix.Admissible(w) && KnuthBendix.Gt(w, l, r)
    ensures !Swaps(f, g, l, r) && !Swaps(f, g, r, l)
  {
    KnuthBendix.Stable(w, f, l, r);
    KnuthBendix.Stable(w, g, l, r);
    if Swaps(f, g, l, r) || Swaps(f, g, r, l) {
      KnuthBendix.Transitive(w, Instance(f, l), Instance(f, r), Instance(f, l));
      KnuthBendix.Irreflexive(w, Instance(f, l));
    }
  }

  lemma PlainDecided(o: PathOrder.Lpo, w: SymbolConfig, l: Term, r: Term, before: set<VarId>, later: set<VarId>)
    requires KnuthBendix.Admissible(w) && PlainEquation(o, w, l, r, before, later)
    ensures Decided(l, r, before, later)
  {
    KnuthBendix.CompareDecides(w, l, r, true);
    forall f: VarId -> Term, g: VarId -> Term | Swaps(f, g, l, r) && SameOn(f, g, before)
      ensures SameOn(f, g, later * (TermVars(l) + TermVars(r)))
    {
      if l == r {
        InstanceInjective(f, g, l);
      } else if PathOrder.Gt(o, l, r) {
        LpoOrients(o, l, r, f, g);
      } else if PathOrder.Gt(o, r, l) {
        LpoOrients(o, r, l, f, g);
      } else if KnuthBendix.Gt(w, l, r) {
        KboOrients(w, l, r, f, g);
      } else if KnuthBendix.Gt(w, r, l) {
        KboOrients(w, r, l, f, g);
      } else if Clash(l, r) {
        ClashApart(f, g, l, r);
      }
    }
  }

  lemma {:induction false} PlainSettled(o: PathOrder.Lpo, w: SymbolConfig, c: Clause, before: set<VarId>)
    requires KnuthBendix.Admissible(w) && Plain(o, w, c, before)
    ensures Settled(c, before)
    decreases |c|
  {
    if c != [] {
      if c[0].atom.Eq? { PlainDecided(o, w, c[0].atom.left, c[0].atom.right, before, ClauseVars(c[1..])); }
      PlainSettled(o, w, c[1..], before + AtomVars(c[0].atom));
    }
  }

  // ----- the condition survives standardising apart

  function ShiftSet(vars: set<VarId>, k: nat): (r: set<VarId>)
    ensures forall x :: x in r <==> x >= k && x - k in vars
  {
    set v | v in vars :: v + k
  }

  lemma {:induction false} ShiftedVars(k: nat, t: Term)
    ensures TermVars(Instance(Shift(k), t)) == ShiftSet(TermVars(t), k)
    decreases t
  {
    if t.App? {
      var us := Instances(Shift(k), t.args);
      forall i | 0 <= i < |us| ensures TermVars(us[i]) == ShiftSet(TermVars(t.args[i]), k) {
        ShiftedVars(k, t.args[i]);
      }
      ShiftedUnion(us, t.args, k);
      assert TermVars(App(t.sym, us)) == ListVars(us) && TermVars(t) == ListVars(t.args);
    }
  }

  lemma ShiftedUnion(us: seq<Term>, ts: seq<Term>, k: nat)
    requires |us| == |ts| && forall i :: 0 <= i < |ts| ==> TermVars(us[i]) == ShiftSet(TermVars(ts[i]), k)
    ensures ListVars(us) == ShiftSet(ListVars(ts), k)
  {
    forall x | x in ListVars(us) ensures x in ShiftSet(ListVars(ts), k) {
      var i :| 0 <= i < |us| && x in TermVars(us[i]);
      assert x >= k && x - k in TermVars(ts[i]);
    }
    forall x | x in ShiftSet(ListVars(ts), k) ensures x in ListVars(us) {
      var i :| 0 <= i < |ts| && x - k in TermVars(ts[i]);
      assert x in TermVars(us[i]);
    }
  }

  lemma ShiftedAtomVars(k: nat, a: Atom)
    ensures AtomVars(AtomInstance(Shift(k), a)) == ShiftSet(AtomVars(a), k)
  {
    var args := AtomArgs(a);
    var us := Instances(Shift(k), args);
    AtomArgsVars(a);
    AtomArgsVars(AtomInstance(Shift(k), a));
    assert AtomArgs(AtomInstance(Shift(k), a)) == us;
    forall i | 0 <= i < |us| ensures TermVars(us[i]) == ShiftSet(TermVars(args[i]), k) { ShiftedVars(k, args[i]); }
    ShiftedUnion(us, args, k);
  }

  lemma {:induction false} ShiftedClauseVars(k: nat, c: Clause)
    ensures ClauseVars(Renamed(c, k)) == ShiftSet(ClauseVars(c), k)
  {
    if c != [] {
      ShiftedAtomVars(k, c[0].atom);
      ShiftedClauseVars(k, c[1..]);
      assert Renamed(c, k)[1..] == Renamed(c[1..], k);
    }
  }

  function Unshifted(f: VarId -> Term, k: nat): VarId -> Term { (v: VarId) => f(v + k) }

  lemma UnshiftedInstance(f: VarId -> Term, k: nat, t: Term)
    ensures Instance(f, Instance(Shift(k), t)) == Instance(Unshifted(f, k), t)
  {
    InstanceCompose(f, Shift(k), t);
    InstanceAgree((v: VarId) => Instance(f, Shift(k)(v)), Unshifted(f, k), t);
  }

  lemma SwapsShifted(f: VarId -> Term, g: VarId -> Term, l: Term, r: Term, k: nat)
    requires Swaps(f, g, Instance(Shift(k), l), Instance(Shift(k), r))
    ensures Swaps(Unshifted(f, k), Unshifted(g, k), l, r)
  {
    UnshiftedInstance(f, k, l);
    UnshiftedInstance(f, k, r);
    UnshiftedInstance(g, k, l);
    UnshiftedInstance(g, k, r);
  }

  lemma SameOnDown(f: VarId -> Term, g: VarId -> Term, vars: set<VarId>, k: nat)
    requires SameOn(f, g, ShiftSet(vars, k))
    ensures SameOn(Unshifted(f, k), Unshifted(g, k), vars)
  {
    forall v | v in vars ensures Unshifted(f, k)(v) == Unshifted(g, k)(v) { assert v + k in ShiftSet(vars, k); }
  }

  lemma SameOnUp(f: VarId -> Term, g: VarId -> Term, vars: set<VarId>, k: nat)
    requires SameOn(Unshifted(f, k), Unshifted(g, k), vars)
    ensures SameOn(f, g, ShiftSet(vars, k))
  {
    forall x | x in ShiftSet(vars, k) ensures f(x) == g(x) {
      assert f(x) == Unshifted(f, k)(x - k) && Unshifted(g, k)(x - k) == g(x);
    }
  }

  lemma DecidedShifted(l: Term, r: Term, before: set<VarId>, later: set<VarId>, k: nat)
    requires Decided(l, r, before, later)
    ensures Decided(Instance(Shift(k), l), Instance(Shift(k), r), ShiftSet(before, k), ShiftSet(later, k))
  {
    var l1, r1, both := Instance(Shift(k), l), Instance(Shift(k), r), later * (TermVars(l) + TermVars(r));
    ShiftedVars(k, l);
    ShiftedVars(k, r);
    assert ShiftSet(later, k) * (TermVars(l1) + TermVars(r1)) == ShiftSet(both, k);
    forall f: VarId -> Term, g: VarId -> Term | Swaps(f, g, l1, r1) && SameOn(f, g, ShiftSet(before, k))
      ensures SameOn(f, g, ShiftSet(both, k))
    {
      SwapsShifted(f, g, l, r, k);
      SameOnDown(f, g, before, k);
      SameOnUp(f, g, both, k);
    }
  }

  lemma {:induction false} SettledShifted(c: Clause, before: set<VarId>, k: nat)
    requires Settled(c, before)
    ensures Settled(Renamed(c, k), ShiftSet(before, k))
    decreases |c|
  {
    if c != [] {
      var a := c[0].atom;
      ShiftedClauseVars(k, c[1..]);
      ShiftedAtomVars(k, a);
      if a.Eq? {
        DecidedShifted(a.left, a.right, before, ClauseVars(c[1..]), k);
        assert Instances(Shift(k), [a.left, a.right]) == [Instance(Shift(k), a.left), Instance(Shift(k), a.right)];
      }
      SettledShifted(c[1..], before + AtomVars(a), k);
      assert Renamed(c, k)[1..] == Renamed(c[1..], k);
      assert ShiftSet(before + AtomVars(a), k) == ShiftSet(before, k) + ShiftSet(AtomVars(a), k);
    }
  }

  // ----- completeness

  lemma AllComplete(ps: seq<Term>, ts: seq<Term>, s: Bindings, k: nat, f: VarId -> Term)
    requires |ps| == |ts| && Apart(s, k) && Agrees(f, s) && Instances(f, ps) == ts
    requires forall i :: 0 <= i < |ps| ==> From(ps[i], k) && Below(ts[i], k)
    ensures var r := MatchArgs(ps, ts, s, k);
      r.Some? && Apart(r.value, k) && Agrees(f, r.value) && r.value.Keys == s.Keys + ListVars(ps)
  {
    PlainArgs(ps, ts, s, k);
    MatchAllComplete(ps, ts, s, f);
    MatchAllSound(ps, ts, s);
  }

  /** The substitution that follows `s` where it binds and `f` elsewhere. */
  function Overlay(s: Bindings, f: VarId -> Term): VarId -> Term { (v: VarId) => if v in s then s[v] else f(v) }

  /** A literal that `f` sends to the target is matched, and where the committed orientation
      does not matter, `f` can follow it without changing what the later literals need. */
  lemma AtomsComplete(p: Atom, t: Atom, s: Bindings, k: nat, f: VarId -> Term, later: set<VarId>)
    requires Apart(s, k) && (forall v :: v in AtomVars(p) ==> v >= k) && (forall v :: v in AtomVars(t) ==> v < k)
    requires Agrees(f, s) && SameAtom(AtomInstance(f, p), t)
    requires p.Eq? ==> Decided(p.left, p.right, s.Keys, later)
    ensures var r := MatchAtoms(p, t, s, k);
      r.Some? && Apart(r.value, k) && AtomVars(p) + s.Keys == r.value.Keys && SameOn(Overlay(r.value, f), f, later)
  {
    PatternSides(p, k);
    TargetSides(t, k);
    AtomArgsVars(p);
    if p.Pred? {
      AllComplete(p.args, t.args, s, k, f);
    } else {
      var ps := [p.left, p.right];
      var straight := MatchArgs(ps, [t.left, t.right], s, k);
      if straight.Some? {
        AllSound(ps, [t.left, t.right], s, k);
        PlainArgs(ps, [t.left, t.right], s, k);
        MatchAllSound(ps, [t.left, t.right], s);
        StraightChosen(p, t, s, k, f, later, straight.value);
      } else {
        assert AtomInstance(f, p) != t by {
          if AtomInstance(f, p) == t {
            assert Instances(f, ps) == [t.left, t.right];
            AllComplete(ps, [t.left, t.right], s, k, f);
          }
        }
        assert Instances(f, ps) == [t.right, t.left];
        AllComplete(ps, [t.right, t.left], s, k, f);
      }
    }
  }

  lemma StraightChosen(p: Atom, t: Atom, s: Bindings, k: nat, f: VarId -> Term, later: set<VarId>, r: Bindings)
    requires p.Eq? && t.Eq? && Agrees(f, s) && SameAtom(AtomInstance(f, p), t)
    requires Decided(p.left, p.right, s.Keys, later)
    requires Extends(s, r) && r.Keys == s.Keys + AtomVars(p)
      && Instances(Sub(r), [p.left, p.right]) == [t.left, t.right]
    ensures SameOn(Overlay(r, f), f, later)
  {
    assert AtomArgs(AtomInstance(f, p)) == Instances(f, [p.left, p.right]);
    assert Instance(Sub(r), p.left) == t.left && Instance(Sub(r), p.right) == t.right;
    assert AtomInstance(f, p) == Eq(Instance(f, p.left), Instance(f, p.right));
    forall v | v in later ensures Overlay(r, f)(v) == f(v) {
      if v in r && v !in s {
        if AtomInstance(f, p) == t {
          InstanceInjective(f, Sub(r), p.left);
          InstanceInjective(f, Sub(r), p.right);
        } else {
          assert Swaps(Sub(r), f, p.left, p.right) && SameOn(Sub(r), f, s.Keys);
          assert v in later * (TermVars(p.left) + TermVars(p.right));
        }
      }
    }
  }

  lemma MapsAgree(f: VarId -> Term, g: VarId -> Term, c: Clause, ts: Clause)
    requires Maps(f, c, ts) && SameOn(f, g, ClauseVars(c))
    ensures Maps(g, c, ts)
  {
    forall i | 0 <= i < |c| ensures InTargets(LitInstance(g, c[i]), ts) {
      VarsAt(c, i);
      AtomInstanceAgree(f, g, c[i].atom);
      assert InTargets(LitInstance(f, c[i]), ts);
    }
  }

  lemma DecidedMore(l: Term, r: Term, before: set<VarId>, later: set<VarId>, more: set<VarId>)
    requires Decided(l, r, before, later) && before <= more
    ensures Decided(l, r, more, later)
  {
  }

  lemma {:induction false} LiteralsComplete(ps: Clause, ts: Clause, s: Bindings, k: nat, f: VarId -> Term,
                                            before: set<VarId>)
    requires Apart(s, k) && ClauseFrom(ps, k) && ClauseBelow(ts, k)
    requires Settled(ps, before) && before <= s.Keys
    requires Agrees(f, s) && Maps(f, ps, ts)
    ensures MatchLiterals(ps, ts, s, k)
    decreases |ps|
  {
    if ps != [] {
      var p, rest := ps[0].atom, ps[1..];
      assert InTargets(LitInstance(f, ps[0]), ts);
      var j :| 0 <= j < |ts| && SameLiteral(LitInstance(f, ps[0]), ts[j]);
      if p.Eq? { DecidedMore(p.left, p.right, before, ClauseVars(rest), s.Keys); }
      AtomsComplete(p, ts[j].atom, s, k, f, ClauseVars(rest));
      var ext := MatchAtoms(p, ts[j].atom, s, k).value;
      assert ps == [ps[0]] + rest;
      forall i | 0 <= i < |rest| ensures InTargets(LitInstance(f, rest[i]), ts) { assert rest[i] == ps[i + 1]; }
      MapsAgree(f, Overlay(ext, f), rest, ts);
      LiteralsComplete(rest, ts, ext, k, Overlay(ext, f), before + AtomVars(p));
      assert MatchVia(ps, ts, j, s, k);
    }
  }

  /** The answer is exact for `c1` against every second clause. */
  ghost predicate CompleteFor(c1: Clause) {
    forall c2: Clause :: Exact(c1, c2)
  }

  ghost predicate Exact(c1: Clause, c2: Clause) {
    Subsumes(c1, c2) <==> |c1| <= |c2| && exists f: VarId -> Term :: Maps(f, c1, c2)
  }

  function Shifted(f: VarId -> Term, k: nat): VarId -> Term { (v: VarId) => if v >= k then f(v - k) else Var(v) }

  lemma ShiftedAtom(f: VarId -> Term, k: nat, a: Atom)
    ensures AtomInstance(Shifted(f, k), AtomInstance(Shift(k), a)) == AtomInstance(f, a)
  {
    AtomInstanceCompose(Shifted(f, k), Shift(k), a);
    AtomInstanceAgree((v: VarId) => Instance(Shifted(f, k), Shift(k)(v)), f, a);
  }

  /** With settled equations `subsumes` finds a substitution whenever there is one and the first
      clause is not longer; equation-free clauses in particular. */
  lemma SettledComplete(c1: Clause)
    requires Settled(c1, {})
    ensures CompleteFor(c1)
  {
    forall c2: Clause ensures Exact(c1, c2) {
      if Subsumes(c1, c2) { var f := SubsumesSound(c1, c2); }
      if |c1| <= |c2| {
        if f: VarId -> Term :| Maps(f, c1, c2) { MapFound(c1, c2, f); }
      }
    }
  }

  lemma MapFound(c1: Clause, c2: Clause, f: VarId -> Term)
    requires Settled(c1, {}) && Maps(f, c1, c2)
    ensures MatchLiterals(Renamed(c1, ClauseBound(c2)), c2, map[], ClauseBound(c2))
  {
    var k := ClauseBound(c2);
    var ps := Renamed(c1, k);
    RenamedFrom(c1, k);
    forall i | 0 <= i < |ps| ensures InTargets(LitInstance(Shifted(f, k), ps[i]), c2) {
      ShiftedAtom(f, k, c1[i].atom);
      assert InTargets(LitInstance(f, c1[i]), c2);
    }
    SettledShifted(c1, {}, k);
    assert ShiftSet({}, k) == {};
    LiteralsComplete(ps, c2, map[], k, Shifted(f, k), {});
  }

  /** Two equations or more, as long as each is oriented by an ordering, clashes, or binds nothing
      that is needed later: `subsumes` is exact. */
  lemma SubsumesExact(o: PathOrder.Lpo, w: SymbolConfig, c1: Clause, c2: Clause)
    requires KnuthBendix.Admissible(w) && Plain(o, w, c1, {})
    ensures Subsumes(c1, c2) <==> |c1| <= |c2| && exists f: VarId -> Term :: Maps(f, c1, c2)
  {
    PlainSettled(o, w, c1, {});
    SettledComplete(c1);
    assert Exact(c1, c2);
  }

  /** Some substitution sends every literal of `active` into the target with literal `i` complemented. */
  ghost predicate Removable(active: Clause, target: Clause, i: nat)
    requires i < |target|
  {
    exists f: VarId -> Term :: Maps(f, active, Flipped(target, i))
  }

  /** Under the same condition subsumption resolution is exact: it names the first literal whose
      complement, put in its place, makes the target an instance. */
  lemma ResolutionExact(active: Clause, target: Clause)
    requires Settled(active, {})
    ensures SubsumptionResolution(active, target).Some? <==>
      active != [] && |active| <= |target| && exists i :: 0 <= i < |target| && Removable(active, target, i)
    ensures SubsumptionResolution(active, target).Some? ==>
      var i := SubsumptionResolution(active, target).value;
      Removable(active, target, i) && forall k :: 0 <= k < i ==> !Removable(active, target, k)
  {
    SettledComplete(active);
    if active != [] && |active| <= |target| {
      forall i | 0 <= i < |target| ensures ResolvesAt(active, target, i) <==> Removable(active, target, i) {
        ResolvesBySubsumption(active, target, i);
        assert Exact(active, Flipped(target, i));
      }
    }
  }

  // ----- the condition is necessary where no literal can stand for another

  /** Literals with a common target, up to the orientation and sign of equations. */
  predicate Alike(l: Literal, k: Literal) {
    || (l.atom.Eq? && k.atom.Eq?)
    || (&& l.positive == k.positive && l.atom.Pred? && k.atom.Pred?
        && l.atom.sym == k.atom.sym && |l.atom.args| == |k.atom.args|)
  }

  predicate Unlike(c: Clause) { forall i, j :: 0 <= i < j < |c| ==> !Alike(c[i], c[j]) }

  lemma {:induction false} FindUnsettled(c: Clause, before: set<VarId>) returns (i: nat)
    requires !Settled(c, before)
    ensures i < |c| && c[i].atom.Eq?
    ensures !Decided(c[i].atom.left, c[i].atom.right, before + ClauseVars(c[..i]), ClauseVars(c[i + 1..]))
    decreases |c|
  {
    var first := AtomVars(c[0].atom);
    if c[0].atom.Eq? && !Decided(c[0].atom.left, c[0].atom.right, before, ClauseVars(c[1..])) {
      i := 0;
      assert before + ClauseVars(c[..0]) == before;
    } else {
      var n := FindUnsettled(c[1..], before + first);
      i := n + 1;
      assert c[1..][n + 1..] == c[i + 1..] && c[..i][1..] == c[1..][..n];
      assert before + first + ClauseVars(c[1..][..n]) == before + (first + ClauseVars(c[1..][..n]));
    }
  }

  /** The clause with equation `i` sent to its target straight by `f` and the rest by `g`. */
  function Trap(c: Clause, i: nat, f: VarId -> Term, g: VarId -> Term): (r: Clause)
    requires i < |c|
    ensures |r| == |c| && forall j :: 0 <= j < |c| ==> r[j] == LitInstance(if j == i then f else g, c[j])
  {
    seq(|c|, j requires 0 <= j < |c| => LitInstance(if j == i then f else g, c[j]))
  }

  /** `f` and `g` differ on a variable that the rest of the clause needs. */
  ghost predicate Baited(c: Clause, i: nat, f: VarId -> Term, g: VarId -> Term, v: VarId) {
    && Unlike(c) && i < |c| && c[i].atom.Eq?
    && Swaps(f, g, c[i].atom.left, c[i].atom.right) && SameOn(f, g, ClauseVars(c[..i]))
    && v in ClauseVars(c[i + 1..]) && v in AtomVars(c[i].atom) && f(v) != g(v)
  }

  lemma TrapMaps(c: Clause, i: nat, f: VarId -> Term, g: VarId -> Term)
    requires i < |c| && c[i].atom.Eq? && Swaps(f, g, c[i].atom.left, c[i].atom.right)
    ensures Maps(g, c, Trap(c, i, f, g))
  {
    var ts, a := Trap(c, i, f, g), c[i].atom;
    assert AtomInstance(f, a) == Eq(Instance(f, a.left), Instance(f, a.right));
    assert AtomInstance(g, a) == Eq(Instance(g, a.left), Instance(g, a.right));
    forall j | 0 <= j < |c| ensures InTargets(LitInstance(g, c[j]), ts) {
      assert SameLiteral(LitInstance(g, c[j]), ts[j]);
    }
  }

  /** Only the own target has the shape of a literal. */
  lemma OwnTarget(c: Clause, i: nat, f: VarId -> Term, g: VarId -> Term, n: nat, j: nat, h: VarId -> Term)
    requires Unlike(c) && i < |c| && n < |c| && j < |c|
    requires SameLiteral(LitInstance(h, c[n]), Trap(c, i, f, g)[j])
    ensures j == n
  {
    assert Alike(c[n], c[j]);
  }

  lemma MatchSameShape(p: Literal, t: Literal, s: Bindings, k: nat)
    requires p.positive == t.positive && MatchAtoms(p.atom, t.atom, s, k).Some?
    ensures Alike(p, t)
  {
  }

  /** A literal with one possible target is matched there. */
  lemma OnlyTarget(ps: Clause, ts: Clause, n: nat, s: Bindings, k: nat)
    requires n < |ps| && n < |ts| && forall j :: 0 <= j < |ts| && j != n ==> !Alike(ps[n], ts[j])
    requires MatchLiterals(ps[n..], ts, s, k)
    ensures var ext := MatchAtoms(ps[n].atom, ts[n].atom, s, k);
      && ext.Some?
      && MatchLiterals(ps[n + 1..], ts, ext.value, k)
  {
    var j :| 0 <= j < |ts| && MatchVia(ps[n..], ts, j, s, k);
    MatchSameShape(ps[n], ts[j], s, k);
    assert ps[n..][1..] == ps[n + 1..];
  }

  lemma TrapApart(c: Clause, i: nat, f: VarId -> Term, g: VarId -> Term, k: nat, n: nat)
    requires Unlike(c) && i < |c| && n < |c|
    ensures forall j :: 0 <= j < |c| && j != n ==> !Alike(Renamed(c, k)[n], Trap(c, i, f, g)[j])
  {
    forall j | 0 <= j < |c| && j != n ensures !Alike(Renamed(c, k)[n], Trap(c, i, f, g)[j]) {
      assert !Alike(c[n], c[j]);
    }
  }

  /** The literals before the equation bind as `f` and `g` both do. */
  lemma {:induction false} BeforeTrap(c: Clause, i: nat, f: VarId -> Term, g: VarId -> Term, k: nat,
                                      n: nat, s: Bindings) returns (s2: Bindings)
    requires Unlike(c) && n <= i < |c| && c[i].atom.Eq? && SameOn(f, g, ClauseVars(c[..i]))
    requires ClauseBelow(Trap(c, i, f, g), k) && Apart(s, k) && Agrees(Shifted(f, k), s)
    requires MatchLiterals(Renamed(c, k)[n..], Trap(c, i, f, g), s, k)
    ensures MatchLiterals(Renamed(c, k)[i..], Trap(c, i, f, g), s2, k) && Apart(s2, k) && Agrees(Shifted(f, k), s2)
    decreases i - n
  {
    if n == i { return s; }
    var ps, ts := Renamed(c, k), Trap(c, i, f, g);
    RenamedFrom(c, k);
    TrapApart(c, i, f, g, k, n);
    OnlyTarget(ps, ts, n, s, k);
    VarsAt(c[..i], n);
    AtomInstanceAgree(f, g, c[n].atom);
    assert !Alike(c[n], c[i]);
    PredComplete(ps[n].atom, ts[n].atom, s, k, c[n].atom, f);
    s2 := BeforeTrap(c, i, f, g, k, n + 1, MatchAtoms(ps[n].atom, ts[n].atom, s, k).value);
  }

  lemma PredComplete(p: Atom, t: Atom, s: Bindings, k: nat, a: Atom, f: VarId -> Term)
    requires Apart(s, k) && Agrees(Shifted(f, k), s) && a.Pred? && p == AtomInstance(Shift(k), a)
      && t == AtomInstance(f, a)
    requires (forall v :: v in AtomVars(p) ==> v >= k) && (forall v :: v in AtomVars(t) ==> v < k)
    ensures var r := MatchAtoms(p, t, s, k); r.Some? && Apart(r.value, k) && Agrees(Shifted(f, k), r.value)
  {
    PatternSides(p, k);
    TargetSides(t, k);
    ShiftedAtom(f, k, a);
    AllComplete(p.args, t.args, s, k, Shifted(f, k));
  }

  lemma EquationStraight(p: Atom, t: Atom, s: Bindings, k: nat, a: Atom, f: VarId -> Term)
    requires Apart(s, k) && Agrees(Shifted(f, k), s) && a.Eq? && p == AtomInstance(Shift(k), a)
      && t == AtomInstance(f, a)
    requires (forall v :: v in AtomVars(p) ==> v >= k) && (forall v :: v in AtomVars(t) ==> v < k)
    ensures var r := MatchAtoms(p, t, s, k);
      r.Some? && Apart(r.value, k) && Agrees(Shifted(f, k), r.value) && ShiftSet(AtomVars(a), k) <= r.value.Keys
  {
    var ps, ts := [p.left, p.right], [t.left, t.right];
    PatternSides(p, k);
    TargetSides(t, k);
    ShiftedAtom(f, k, a);
    assert AtomArgs(AtomInstance(Shifted(f, k), p)) == Instances(Shifted(f, k), ps) == ts;
    AllComplete(ps, ts, s, k, Shifted(f, k));
    ShiftedAtomVars(k, a);
    AtomArgsVars(p);
  }

  /** The equation itself is matched straight, as `f` does. */
  lemma AtTrap(c: Clause, i: nat, f: VarId -> Term, g: VarId -> Term, k: nat, s: Bindings) returns (ext: Bindings)
    requires Unlike(c) && i < |c| && c[i].atom.Eq?
    requires ClauseBelow(Trap(c, i, f, g), k) && Apart(s, k) && Agrees(Shifted(f, k), s)
    requires MatchLiterals(Renamed(c, k)[i..], Trap(c, i, f, g), s, k)
    ensures MatchLiterals(Renamed(c, k)[i + 1..], Trap(c, i, f, g), ext, k)
    ensures Apart(ext, k) && Agrees(Shifted(f, k), ext) && ShiftSet(AtomVars(c[i].atom), k) <= ext.Keys
  {
    var ps, ts := Renamed(c, k), Trap(c, i, f, g);
    RenamedFrom(c, k);
    TrapApart(c, i, f, g, k, i);
    OnlyTarget(ps, ts, i, s, k);
    EquationStraight(ps[i].atom, ts[i].atom, s, k, c[i].atom, f);
    ext := MatchAtoms(ps[i].atom, ts[i].atom, s, k).value;
  }

  lemma {:induction false} LiteralWith(c: Clause, i: nat, v: VarId) returns (n: nat)
    requires i <= |c| && v in ClauseVars(c[i..])
    ensures i <= n < |c| && v in AtomVars(c[n].atom)
    decreases |c| - i
  {
    assert c[i..][1..] == c[i + 1..];
    if v in AtomVars(c[i].atom) { n := i; } else { n := LiteralWith(c, i + 1, v); }
  }

  /** What a match of the literals behind the equation says about each of them. */
  lemma RestMapped(ps: Clause, ts: Clause, i: nat, n: nat, k: nat, ext: Bindings) returns (r: Bindings)
    requires i < n < |ps| && ClauseFrom(ps, k) && ClauseBelow(ts, k) && Apart(ext, k)
    requires MatchLiterals(ps[i + 1..], ts, ext, k)
    ensures Extends(ext, r) && InTargets(LitInstance(Sub(r), ps[n]), ts)
  {
    var rest := ps[i + 1..];
    forall j, v | 0 <= j < |rest| && v in AtomVars(rest[j].atom) ensures v >= k { assert rest[j] == ps[i + 1 + j]; }
    r := LiteralsSound(rest, ts, ext, k);
    assert rest[n - i - 1] == ps[n];
  }

  /** Behind the equation, the literal that needs `v` finds it bound otherwise. */
  lemma BehindTrap(c: Clause, i: nat, f: VarId -> Term, g: VarId -> Term, v: VarId, k: nat, ext: Bindings)
    requires Unlike(c) && i < |c| && c[i].atom.Eq? && v in ClauseVars(c[i + 1..]) && f(v) != g(v)
    requires ClauseBelow(Trap(c, i, f, g), k) && Apart(ext, k) && v + k in ext && ext[v + k] == f(v)
    ensures !MatchLiterals(Renamed(c, k)[i + 1..], Trap(c, i, f, g), ext, k)
  {
    if MatchLiterals(Renamed(c, k)[i + 1..], Trap(c, i, f, g), ext, k) {
      RenamedFrom(c, k);
      var n := LiteralWith(c, i + 1, v);
      var r := RestMapped(Renamed(c, k), Trap(c, i, f, g), i, n, k, ext);
      OnlyByG(c, i, f, g, n, Sub(r), k, v);
    }
  }

  lemma UnshiftedLiteral(h: VarId -> Term, k: nat, l: Literal)
    ensures LitInstance(h, LitInstance(Shift(k), l)) == LitInstance(Unshifted(h, k), l)
  {
    AtomInstanceCompose(h, Shift(k), l.atom);
    AtomInstanceAgree((x: VarId) => Instance(h, Shift(k)(x)), Unshifted(h, k), l.atom);
  }

  lemma OnlyByG(c: Clause, i: nat, f: VarId -> Term, g: VarId -> Term, n: nat, h: VarId -> Term, k: nat, v: VarId)
    requires Unlike(c) && i < n < |c| && c[i].atom.Eq? && v in AtomVars(c[n].atom)
    requires InTargets(LitInstance(h, Renamed(c, k)[n]), Trap(c, i, f, g))
    ensures h(v + k) == g(v)
  {
    var u := Unshifted(h, k);
    assert InTargets(LitInstance(u, c[n]), Trap(c, i, f, g)) by { UnshiftedLiteral(h, k, c[n]); }
    OwnInstance(c, i, f, g, n, u);
    SameAt(u, g, c[n].atom, v);
  }

  lemma SameAt(u: VarId -> Term, g: VarId -> Term, a: Atom, v: VarId)
    requires AtomInstance(u, a) == AtomInstance(g, a) && v in AtomVars(a)
    ensures u(v) == g(v)
  {
    AtomInstanceInjective(u, g, a);
  }

  lemma OwnInstance(c: Clause, i: nat, f: VarId -> Term, g: VarId -> Term, n: nat, u: VarId -> Term)
    requires Unlike(c) && i < n < |c| && c[i].atom.Eq?
    requires InTargets(LitInstance(u, c[n]), Trap(c, i, f, g))
    ensures AtomInstance(u, c[n].atom) == AtomInstance(g, c[n].atom)
  {
    var ts := Trap(c, i, f, g);
    var j :| 0 <= j < |ts| && SameLiteral(LitInstance(u, c[n]), ts[j]);
    OwnTarget(c, i, f, g, n, j, u);
    assert !Alike(c[i], c[n]);
  }

  lemma TrapHolds(c: Clause, i: nat, f: VarId -> Term, g: VarId -> Term, v: VarId)
    requires Baited(c, i, f, g, v)
    ensures !Subsumes(c, Trap(c, i, f, g))
  {
    var ts := Trap(c, i, f, g);
    var k := ClauseBound(ts);
    if MatchLiterals(Renamed(c, k), ts, map[], k) {
      assert Renamed(c, k)[0..] == Renamed(c, k);
      var s := BeforeTrap(c, i, f, g, k, 0, map[]);
      var ext := AtTrap(c, i, f, g, k, s);
      assert v + k in ShiftSet(AtomVars(c[i].atom), k) && Shifted(f, k)(v + k) == f(v);
      BehindTrap(c, i, f, g, v, k, ext);
    }
  }

  lemma AtomInstanceInjective(f: VarId -> Term, g: VarId -> Term, a: Atom)
    requires AtomInstance(f, a) == AtomInstance(g, a)
    ensures SameOn(f, g, AtomVars(a))
  {
    AtomArgsVars(a);
    var args := AtomArgs(a);
    assert AtomArgs(AtomInstance(f, a)) == Instances(f, args) && AtomArgs(AtomInstance(g, a)) == Instances(g, args);
    forall v | v in AtomVars(a) ensures f(v) == g(v) {
      var i :| 0 <= i < |args| && v in TermVars(args[i]);
      assert Instances(f, args)[i] == Instances(g, args)[i];
      InstanceInjective(f, g, args[i]);
    }
  }

  /** The exact condition, for a first clause with at most one equation and no two literals of
      one sign and predicate: the answer is right against every second clause if and only if the
      committed orientation never matters. */
  lemma SettledExact(c1: Clause)
    requires Unlike(c1)
    ensures CompleteFor(c1) <==> Settled(c1, {})
  {
    if Settled(c1, {}) {
      SettledComplete(c1);
    } else {
      var i := FindUnsettled(c1, {});
      var a, later := c1[i].atom, ClauseVars(c1[i + 1..]);
      assert {} + ClauseVars(c1[..i]) == ClauseVars(c1[..i]);
      var f: VarId -> Term, g: VarId -> Term :| Swaps(f, g, a.left, a.right) && SameOn(f, g, ClauseVars(c1[..i]))
        && !SameOn(f, g, later * (TermVars(a.left) + TermVars(a.right)));
      var v :| v in later * (TermVars(a.left) + TermVars(a.right)) && f(v) != g(v);
      TrapHolds(c1, i, f, g, v);
      TrapMaps(c1, i, f, g);
      assert !Exact(c1, Trap(c1, i, f, g));
    }
  }

  // ----- a concrete input

  const A: Term := App(0, [])
  const B: Term := App(1, [])

  /** Committing to the first orientation loses: `x = y or p(x)` maps into `a = b or p(b)`, but
      the search binds `x` to `a` and never tries the other way round. */
  lemma EquationCommitment() returns (c1: Clause, c2: Clause, f: VarId -> Term)
    ensures |c1| == |c2| && Maps(f, c1, c2) && !Subsumes(c1, c2)
    ensures Unlike(c1) && !CompleteFor(c1) && !Settled(c1, {})
  {
    c1 := [Literal(true, Eq(Var(0), Var(1))), Literal(true, Pred(0, [Var(0)]))];
    c2 := [Literal(true, Eq(A, B)), Literal(true, Pred(0, [B]))];
    f := v => if v == 0 then B else A;
    assert LitInstance(f, c1[0]) == Literal(true, Eq(B, A));
    assert Instances(f, [Var(0)]) == [B];
    assert LitInstance(f, c1[1]) == Literal(true, Pred(0, [B]));
    assert SameLiteral(LitInstance(f, c1[0]), c2[0]) && SameLiteral(LitInstance(f, c1[1]), c2[1]);
    assert Renamed(c1, 0) == c1 by { RenamedByZero(c1); }
    CommitmentSearch(c1, c2);
    MissedMap(c1, c2, f);
    SettledExact(c1);
  }

  lemma MissedMap(c1: Clause, c2: Clause, f: VarId -> Term)
    requires |c1| <= |c2| && Maps(f, c1, c2) && !Subsumes(c1, c2)
    ensures !CompleteFor(c1)
  {
    assert !Exact(c1, c2);
  }

  lemma RenamedByZero(c: Clause)
    requires c == [Literal(true, Eq(Var(0), Var(1))), Literal(true, Pred(0, [Var(0)]))]
    ensures Renamed(c, 0) == c
  {
    assert Instances(Shift(0), [Var(0)]) == [Var(0)];
    assert Instances(Shift(0), [Var(0), Var(1)]) == [Var(0), Var(1)];
  }

  lemma CommitmentSearch(c1: Clause, c2: Clause)
    requires c1 == [Literal(true, Eq(Var(0), Var(1))), Literal(true, Pred(0, [Var(0)]))]
    requires c2 == [Literal(true, Eq(A, B)), Literal(true, Pred(0, [B]))]
    ensures ClauseBound(c2) == 0 && !MatchLiterals(c1, c2, map[], 0)
  {
    assert [B][1..] == [] && ListBound([B]) == 0;
    assert [A, B][1..] == [B] && ListBound([A, B]) == 0;
    assert c2[1..] == [c2[1]] && [c2[1]][1..] == [] && ClauseBound([c2[1]]) == 0;
    var s := map[0 := A, 1 := B];
    PlainArgs([Var(0), Var(1)], [A, B], map[], 0);
    assert MatchAll([Var(0), Var(1)], [A, B], map[]) == Some(s);
    assert MatchAtoms(c1[0].atom, c2[0].atom, map[], 0) == Some(s);
    assert MatchAtoms(c1[0].atom, c2[1].atom, map[], 0).None?;
    PlainArgs([Var(0)], [B], s, 0);
    assert MatchAtoms(c1[1].atom, c2[1].atom, s, 0).None?;
    assert MatchAtoms(c1[1].atom, c2[0].atom, s, 0).None?;
    assert c1[1..] == [c1[1]];
    assert !MatchLiterals([c1[1]], c2, s, 0);
    forall j | 0 <= j < |c2| ensures !MatchVia(c1, c2, j, map[], 0) {
    }
  }
}
