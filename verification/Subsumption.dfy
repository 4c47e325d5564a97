/** Theta-subsumption by backtracking matching: what it decides, and what that means. */
module Subsumption {
  import opened Wrappers
  import opened Fol
  import opened TermOrder
  import opened Matching
  import opened Extraction
  import opened Rewriting

  // ----- standardising apart

  /** One more than the largest variable, 0 for a ground term. */
  function TermBound(t: Term): (k: nat)
    ensures forall v :: v in TermVars(t) ==> v < k
    decreases t
  {
    match t
    case Var(v) => v + 1
    case App(_, args) => ListBound(args)
  }

  function ListBound(ts: seq<Term>): (k: nat)
    ensures forall i, v :: 0 <= i < |ts| && v in TermVars(ts[i]) ==> v < k
    decreases ts
  {
    if ts == [] then 0
    else
      assert ts == [ts[0]] + ts[1..];
      Max(TermBound(ts[0]), ListBound(ts[1..]))
  }

  /** `max_var`. */
  function ClauseBound(c: Clause): (k: nat)
    ensures ClauseBelow(c, k)
  {
    if c == [] then 0
    else
      assert c == [c[0]] + c[1..];
      AtomArgsVars(c[0].atom);
      Max(ListBound(AtomArgs(c[0].atom)), ClauseBound(c[1..]))
  }

  ghost predicate ClauseBelow(c: Clause, k: nat) {
    forall i, v :: 0 <= i < |c| && v in AtomVars(c[i].atom) ==> v < k
  }

  ghost predicate ClauseFrom(c: Clause, k: nat) {
    forall i, v :: 0 <= i < |c| && v in AtomVars(c[i].atom) ==> v >= k
  }

  lemma AtomArgsVars(a: Atom)
    ensures AtomVars(a) == ListVars(AtomArgs(a))
  {
    if a.Eq? {
      var args := AtomArgs(a);
      assert args[0] == a.left && args[1] == a.right;
    }
  }

  function Shift(k: nat): VarId -> Term { (v: VarId) => Var(v + k) }

  function AtomInstance(f: VarId -> Term, a: Atom): Atom { WithArgs(a, Instances(f, AtomArgs(a))) }

  function LitInstance(f: VarId -> Term, l: Literal): Literal { Literal(l.positive, AtomInstance(f, l.atom)) }

  /** `rename_clause`. */
  function Renamed(c: Clause, k: nat): (r: Clause)
    ensures |r| == |c| && forall i :: 0 <= i < |c| ==> r[i] == LitInstance(Shift(k), c[i])
  {
    seq(|c|, i requires 0 <= i < |c| => LitInstance(Shift(k), c[i]))
  }

  lemma {:induction false} ShiftVars(k: nat, t: Term)
    ensures forall v :: v in TermVars(Instance(Shift(k), t)) ==> v >= k
    decreases t
  {
    if t.App? {
      var us := Instances(Shift(k), t.args);
      forall i, v | 0 <= i < |us| && v in TermVars(us[i]) ensures v >= k { ShiftVars(k, t.args[i]); }
    }
  }

  lemma RenamedFrom(c: Clause, k: nat)
    ensures ClauseFrom(Renamed(c, k), k)
  {
    var r := Renamed(c, k);
    forall i, v | 0 <= i < |r| && v in AtomVars(r[i].atom) ensures v >= k {
      AtomArgsVars(r[i].atom);
      var us := AtomArgs(r[i].atom);
      assert us == Instances(Shift(k), AtomArgs(c[i].atom));
      var j :| 0 <= j < |us| && v in TermVars(us[j]);
      ShiftVars(k, AtomArgs(c[i].atom)[j]);
    }
  }

  // ----- matching as coded

  /** `apply_subst_chain`: follow variable bindings, breaking on a cycle, then one flat step. */
  function Chain(s: Bindings, t: Term, seen: set<VarId>): Term
    decreases s.Keys - seen
  {
    match t
    case App(_, _) => ApplyMatch(s, t)
    case Var(v) => if v in seen || v !in s then t else Chain(s, s[v], seen + {v})
  }

  /** `match_single_term`; the pattern has the bindings already applied. */
  function MatchSingle(p: Term, t: Term, s: Bindings, minBindable: nat): Option<Bindings>
    decreases t, 0
  {
    match p
    case Var(v) =>
      if v in s then (if s[v] == t then Some(s) else None)
      else if v < minBindable then (if p == t then Some(s) else None)
      else
        var u := Chain(s, t, {});
        if u == Var(v) then Some(s) else if v in TermVars(u) then None else Some(s[v := u])
    case App(f, args) =>
      if t.App? && f == t.sym && |args| == |t.args| then MatchArgs(args, t.args, s, minBindable) else None
  }

  /** The loop over argument pairs: apply the bindings so far, then match. */
  function MatchArgs(ps: seq<Term>, ts: seq<Term>, s: Bindings, minBindable: nat): Option<Bindings>
    requires |ps| == |ts|
    decreases ts, 1
  {
    if ps == [] then Some(s) else
    match MatchSingle(ApplyMatch(s, ps[0]), ts[0], s, minBindable)
    case None => None
    case Some(s1) => MatchArgs(ps[1..], ts[1..], s1, minBindable)
  }

  /** `match_atoms`: an equation commits to the first orientation that matches. */
  function MatchAtoms(p: Atom, t: Atom, s: Bindings, minBindable: nat): Option<Bindings> {
    if p.Pred? && t.Pred? then
      if p.sym == t.sym && |p.args| == |t.args| then MatchArgs(p.args, t.args, s, minBindable) else None
    else if p.Eq? && t.Eq? then
      var straight := MatchArgs([p.left, p.right], [t.left, t.right], s, minBindable);
      if straight.Some? then straight else MatchArgs([p.left, p.right], [t.right, t.left], s, minBindable)
    else None
  }

  /** `match_literals`: some target for the first literal leaves the others matchable. */
  predicate MatchLiterals(ps: Clause, ts: Clause, s: Bindings, minBindable: nat)
    decreases |ps|, 1
  {
    ps == [] || exists j :: 0 <= j < |ts| && MatchVia(ps, ts, j, s, minBindable)
  }

  predicate MatchVia(ps: Clause, ts: Clause, j: nat, s: Bindings, minBindable: nat)
    requires ps != [] && j < |ts|
    decreases |ps|, 0
  {
    && ps[0].positive == ts[j].positive
    && var ext := MatchAtoms(ps[0].atom, ts[j].atom, s, minBindable);
    && ext.Some? && MatchLiterals(ps[1..], ts, ext.value, minBindable)
  }

  predicate Subsumes(c1: Clause, c2: Clause) {
    && |c1| <= |c2|
    && (c1 == [] || MatchLiterals(Renamed(c1, ClauseBound(c2)), c2, map[], ClauseBound(c2)))
  }

  // ----- with the two clauses apart, this is one-way matching

  /** Bound variables come from the first clause, bound terms from the second. */
  ghost predicate Apart(s: Bindings, k: nat) {
    && (forall v :: v in s ==> v >= k)
    && (forall v, w :: v in s && w in TermVars(s[v]) ==> w < k)
  }

  ghost predicate Below(t: Term, k: nat) { forall v :: v in TermVars(t) ==> v < k }

  ghost predicate From(t: Term, k: nat) { forall v :: v in TermVars(t) ==> v >= k }

  lemma ArgsBelow(t: Term, i: nat, k: nat)
    requires t.App? && i < |t.args|
    ensures Below(t, k) ==> Below(t.args[i], k)
    ensures From(t, k) ==> From(t.args[i], k)
  {
    assert forall v :: v in TermVars(t.args[i]) ==> v in TermVars(t);
  }

  lemma {:induction false} FlatBelow(s: Bindings, t: Term, k: nat)
    requires Apart(s, k) && Below(t, k)
    ensures ApplyMatch(s, t) == t
    decreases t
  {
    if t.Var? {
      assert t.v in TermVars(t);
    } else {
      forall i | 0 <= i < |t.args| ensures ApplyMatch(s, t.args[i]) == t.args[i] {
        ArgsBelow(t, i, k);
        FlatBelow(s, t.args[i], k);
      }
      assert Instances(Sub(s), t.args) == t.args;
    }
  }

  lemma ChainBelow(s: Bindings, t: Term, k: nat)
    requires Apart(s, k) && Below(t, k)
    ensures Chain(s, t, {}) == t
  {
    if t.Var? { assert t.v in TermVars(t); } else { FlatBelow(s, t, k); }
  }

  /** Applying fewer bindings first makes no difference. */
  lemma {:induction false} FlatFlat(s0: Bindings, s: Bindings, p: Term, k: nat)
    requires Apart(s0, k) && Apart(s, k) && Extends(s0, s)
    ensures ApplyMatch(s, ApplyMatch(s0, p)) == ApplyMatch(s, p)
    decreases p
  {
    if p.Var? {
      if p.v in s0 { FlatBelow(s, s0[p.v], k); }
    } else {
      forall i | 0 <= i < |p.args| ensures ApplyMatch(s, ApplyMatch(s0, p.args[i])) == ApplyMatch(s, p.args[i]) {
        FlatFlat(s0, s, p.args[i], k);
      }
      assert Instances(Sub(s), Instances(Sub(s0), p.args)) == Instances(Sub(s), p.args);
    }
  }

  /** A pattern without bindable variables matches itself alone. */
  lemma {:induction false} RigidSingle(u: Term, t: Term, s: Bindings, k: nat)
    requires Apart(s, k) && Below(u, k)
    ensures MatchSingle(u, t, s, k) == if u == t then Some(s) else None
    decreases t, 0
  {
    if u.Var? {
      assert u.v in TermVars(u);
    } else if t.App? && |u.args| == |t.args| {
      forall i | 0 <= i < |u.args| ensures Below(u.args[i], k) { ArgsBelow(u, i, k); }
      RigidArgs(u.args, t.args, s, k);
    }
  }

  lemma {:induction false} RigidArgs(us: seq<Term>, ts: seq<Term>, s: Bindings, k: nat)
    requires |us| == |ts| && Apart(s, k) && forall i :: 0 <= i < |us| ==> Below(us[i], k)
    ensures MatchArgs(us, ts, s, k) == if us == ts then Some(s) else None
    decreases ts, 1
  {
    if us != [] {
      FlatBelow(s, us[0], k);
      RigidSingle(us[0], ts[0], s, k);
      assert us == [us[0]] + us[1..] && ts == [ts[0]] + ts[1..];
      RigidArgs(us[1..], ts[1..], s, k);
    }
  }

  /** On a pattern from the first clause and a target from the second, the coded matcher with its
      repeated substitutions, chains and occurs check is plain one-way matching. */
  lemma {:induction false} SingleIsMatch(p: Term, t: Term, s0: Bindings, s: Bindings, k: nat)
    requires Apart(s0, k) && Apart(s, k) && Extends(s0, s) && From(p, k) && Below(t, k)
    ensures var r := Match(p, t, s);
      MatchSingle(ApplyMatch(s0, p), t, s, k) == r && (r.Some? ==> Apart(r.value, k) && Extends(s, r.value))
    decreases t, 0
  {
    if p.Var? {
      assert p.v in TermVars(p);
      if p.v in s0 {
        RigidSingle(s0[p.v], t, s, k);
      } else if p.v !in s {
        ChainBelow(s, t, k);
      }
    } else if t.App? && |p.args| == |t.args| {
      forall i | 0 <= i < |p.args| ensures From(p.args[i], k) && Below(t.args[i], k) {
        ArgsBelow(p, i, k);
        ArgsBelow(t, i, k);
      }
      ArgsIsMatch(p.args, t.args, s0, s, k);
    }
  }

  lemma {:induction false} ArgsIsMatch(ps: seq<Term>, ts: seq<Term>, s0: Bindings, s: Bindings, k: nat)
    requires |ps| == |ts| && Apart(s0, k) && Apart(s, k) && Extends(s0, s)
    requires forall i :: 0 <= i < |ps| ==> From(ps[i], k) && Below(ts[i], k)
    ensures var r := MatchAll(ps, ts, s);
      MatchArgs(Instances(Sub(s0), ps), ts, s, k) == r && (r.Some? ==> Apart(r.value, k) && Extends(s, r.value))
    decreases ts, 1
  {
    if ps != [] {
      FlatFlat(s0, s, ps[0], k);
      SingleIsMatch(ps[0], ts[0], s, s, k);
      assert Instances(Sub(s0), ps)[1..] == Instances(Sub(s0), ps[1..]);
      var r := Match(ps[0], ts[0], s);
      if r.Some? { ArgsIsMatch(ps[1..], ts[1..], s0, r.value, k); }
    }
  }

  lemma PlainArgs(ps: seq<Term>, ts: seq<Term>, s: Bindings, k: nat)
    requires |ps| == |ts| && Apart(s, k)
    requires forall i :: 0 <= i < |ps| ==> From(ps[i], k) && Below(ts[i], k)
    ensures var r := MatchAll(ps, ts, s);
      MatchArgs(ps, ts, s, k) == r && (r.Some? ==> Apart(r.value, k) && Extends(s, r.value))
  {
    ArgsIsMatch(ps, ts, map[], s, k);
    forall i | 0 <= i < |ps| ensures ApplyMatch(map[], ps[i]) == ps[i] { EmptySub(ps[i]); }
    assert Instances(Sub(map[]), ps) == ps;
  }

  lemma {:induction false} EmptySub(t: Term)
    ensures ApplyMatch(map[], t) == t
    decreases t
  {
    if t.App? {
      forall i | 0 <= i < |t.args| ensures ApplyMatch(map[], t.args[i]) == t.args[i] { EmptySub(t.args[i]); }
      assert Instances(Sub(map[]), t.args) == t.args;
    }
  }

  // ----- soundness

  /** Equal up to the orientation of an equation. */
  predicate SameAtom(a: Atom, b: Atom) { a == b || (a.Eq? && b.Eq? && a.left == b.right && a.right == b.left) }

  predicate SameLiteral(l: Literal, k: Literal) { l.positive == k.positive && SameAtom(l.atom, k.atom) }

  ghost predicate InTargets(l: Literal, ts: Clause) { exists j :: 0 <= j < |ts| && SameLiteral(l, ts[j]) }

  /** The substitution sends every literal of `ps` into `ts`. */
  ghost predicate Maps(f: VarId -> Term, ps: Clause, ts: Clause) {
    forall i :: 0 <= i < |ps| ==> InTargets(LitInstance(f, ps[i]), ts)
  }

  lemma TargetSides(t: Atom, k: nat)
    requires forall v :: v in AtomVars(t) ==> v < k
    ensures t.Pred? ==> forall i :: 0 <= i < |t.args| ==> Below(t.args[i], k)
    ensures t.Eq? ==> Below(t.left, k) && Below(t.right, k)
  {
    if t.Pred? {
      forall i | 0 <= i < |t.args| ensures Below(t.args[i], k) {
        assert forall v :: v in TermVars(t.args[i]) ==> v in AtomVars(t);
      }
    } else {
      assert forall v :: v in TermVars(t.left) || v in TermVars(t.right) ==> v in AtomVars(t);
    }
  }

  lemma PatternSides(p: Atom, k: nat)
    requires forall v :: v in AtomVars(p) ==> v >= k
    ensures p.Pred? ==> forall i :: 0 <= i < |p.args| ==> From(p.args[i], k)
    ensures p.Eq? ==> From(p.left, k) && From(p.right, k)
  {
    if p.Pred? {
      forall i | 0 <= i < |p.args| ensures From(p.args[i], k) {
        assert forall v :: v in TermVars(p.args[i]) ==> v in AtomVars(p);
      }
    } else {
      assert forall v :: v in TermVars(p.left) || v in TermVars(p.right) ==> v in AtomVars(p);
    }
  }

  lemma AllSound(ps: seq<Term>, ts: seq<Term>, s: Bindings, k: nat)
    requires |ps| == |ts| && Apart(s, k)
    requires forall i :: 0 <= i < |ps| ==> From(ps[i], k) && Below(ts[i], k)
    requires MatchArgs(ps, ts, s, k).Some?
    ensures var r := MatchArgs(ps, ts, s, k).value;
      Apart(r, k) && Extends(s, r) && ListVars(ps) <= r.Keys && Instances(Sub(r), ps) == ts
  {
    PlainArgs(ps, ts, s, k);
    MatchAllSound(ps, ts, s);
    assert Instances(Sub(MatchArgs(ps, ts, s, k).value), ps) == ts;
  }

  lemma AtomsSound(p: Atom, t: Atom, s: Bindings, k: nat)
    requires Apart(s, k) && (forall v :: v in AtomVars(p) ==> v >= k) && (forall v :: v in AtomVars(t) ==> v < k)
    requires MatchAtoms(p, t, s, k).Some?
    ensures var r := MatchAtoms(p, t, s, k).value;
      Apart(r, k) && Extends(s, r) && AtomVars(p) <= r.Keys && SameAtom(AtomInstance(Sub(r), p), t)
  {
    PatternSides(p, k);
    TargetSides(t, k);
    AtomArgsVars(p);
    if p.Pred? {
      AllSound(p.args, t.args, s, k);
    } else if MatchArgs([p.left, p.right], [t.left, t.right], s, k).Some? {
      AllSound([p.left, p.right], [t.left, t.right], s, k);
    } else {
      AllSound([p.left, p.right], [t.right, t.left], s, k);
    }
  }

  lemma AtomInstanceAgree(f: VarId -> Term, g: VarId -> Term, a: Atom)
    requires forall v :: v in AtomVars(a) ==> f(v) == g(v)
    ensures AtomInstance(f, a) == AtomInstance(g, a)
  {
    AtomArgsVars(a);
    var args := AtomArgs(a);
    forall i | 0 <= i < |args| ensures Instance(f, args[i]) == Instance(g, args[i]) { InstanceAgree(f, g, args[i]); }
    assert Instances(f, args) == Instances(g, args);
  }

  lemma {:induction false} LiteralsSound(ps: Clause, ts: Clause, s: Bindings, k: nat) returns (r: Bindings)
    requires MatchLiterals(ps, ts, s, k) && Apart(s, k) && ClauseFrom(ps, k) && ClauseBelow(ts, k)
    ensures Extends(s, r) && Maps(Sub(r), ps, ts)
    decreases |ps|
  {
    if ps == [] {
      r := s;
    } else {
      var j :| 0 <= j < |ts| && MatchVia(ps, ts, j, s, k);
      AtomsSound(ps[0].atom, ts[j].atom, s, k);
      var ext := MatchAtoms(ps[0].atom, ts[j].atom, s, k).value;
      assert ps == [ps[0]] + ps[1..];
      r := LiteralsSound(ps[1..], ts, ext, k);
      AtomInstanceAgree(Sub(r), Sub(ext), ps[0].atom);
      assert SameLiteral(LitInstance(Sub(r), ps[0]), ts[j]);
      forall i | 0 <= i < |ps| ensures InTargets(LitInstance(Sub(r), ps[i]), ts) {
        if i > 0 { assert ps[i] == ps[1..][i - 1]; }
      }
    }
  }

  lemma {:induction false} InstanceCompose(f: VarId -> Term, g: VarId -> Term, t: Term)
    ensures Instance(f, Instance(g, t)) == Instance((v: VarId) => Instance(f, g(v)), t)
    decreases t
  {
    if t.App? {
      var h := (v: VarId) => Instance(f, g(v));
      forall i | 0 <= i < |t.args| ensures Instance(f, Instance(g, t.args[i])) == Instance(h, t.args[i]) {
        InstanceCompose(f, g, t.args[i]);
      }
      assert Instances(f, Instances(g, t.args)) == Instances(h, t.args);
    }
  }

  lemma AtomInstanceCompose(f: VarId -> Term, g: VarId -> Term, a: Atom)
    ensures AtomInstance(f, AtomInstance(g, a)) == AtomInstance((v: VarId) => Instance(f, g(v)), a)
  {
    var args := AtomArgs(a);
    var h := (v: VarId) => Instance(f, g(v));
    forall i | 0 <= i < |args| ensures Instance(f, Instance(g, args[i])) == Instance(h, args[i]) {
      InstanceCompose(f, g, args[i]);
    }
    assert Instances(f, Instances(g, args)) == Instances(h, args);
    assert AtomArgs(AtomInstance(g, a)) == Instances(g, args);
  }

  lemma MapsRenamed(f: VarId -> Term, c: Clause, k: nat, ts: Clause)
    ensures Maps(f, Renamed(c, k), ts) <==> Maps((v: VarId) => Instance(f, Shift(k)(v)), c, ts)
  {
    forall i | 0 <= i < |c|
      ensures LitInstance(f, Renamed(c, k)[i]) == LitInstance((v: VarId) => Instance(f, Shift(k)(v)), c[i])
    {
      AtomInstanceCompose(f, Shift(k), c[i].atom);
    }
  }

  /** A match on any targets over variables below `k` gives a substitution into them. */
  lemma MatchGivesMap(c1: Clause, ts: Clause, k: nat) returns (f: VarId -> Term)
    requires ClauseBelow(ts, k) && MatchLiterals(Renamed(c1, k), ts, map[], k)
    ensures Maps(f, c1, ts)
  {
    RenamedFrom(c1, k);
    var r := LiteralsSound(Renamed(c1, k), ts, map[], k);
    MapsRenamed(Sub(r), c1, k, ts);
    f := (v: VarId) => Instance(Sub(r), Shift(k)(v));
  }

  /** `subsumes` is sound: a positive answer comes with a substitution into the second clause. */
  lemma SubsumesSound(c1: Clause, c2: Clause) returns (f: VarId -> Term)
    requires Subsumes(c1, c2)
    ensures Maps(f, c1, c2)
  {
    if c1 == [] {
      f := (v: VarId) => Var(v);
    } else {
      f := MatchGivesMap(c1, c2, ClauseBound(c2));
    }
  }

  /** A literal of either sign needs a target of that sign. */
  lemma SignsNeeded(c1: Clause, c2: Clause)
    requires Subsumes(c1, c2)
    ensures forall i :: 0 <= i < |c1| ==> exists j :: 0 <= j < |c2| && c2[j].positive == c1[i].positive
  {
    var f := SubsumesSound(c1, c2);
    forall i | 0 <= i < |c1| ensures exists j :: 0 <= j < |c2| && c2[j].positive == c1[i].positive {
      assert InTargets(LitInstance(f, c1[i]), c2);
    }
  }

  /** Renaming a ground clause is the identity. */
  lemma GroundRenamed(c: Clause, k: nat)
    requires ClauseBound(c) == 0
    ensures Renamed(c, k) == c
  {
    forall i | 0 <= i < |c| ensures Renamed(c, k)[i] == c[i] {
      AtomInstanceAgree(Shift(k), Sub(map[]), c[i].atom);
      var args := AtomArgs(c[i].atom);
      forall n | 0 <= n < |args| ensures ApplyMatch(map[], args[n]) == args[n] { EmptySub(args[n]); }
      assert Instances(Sub(map[]), args) == args;
    }
  }

  // ----- consequences

  lemma AtomInstanceHolds<D(!new)>(m: Structure<D>, e: Env<D>, f: VarId -> Term, a: Atom)
    ensures AtomHolds(m, e, AtomInstance(f, a)) == AtomHolds(m, (v: VarId) => Val(m, e, f(v)), a)
  {
    var e2: Env<D> := (v: VarId) => Val(m, e, f(v));
    var args := AtomArgs(a);
    forall i | 0 <= i < |args| ensures Val(m, e, Instance(f, args[i])) == Val(m, e2, args[i]) {
      InstanceVal(m, e, f, args[i]);
    }
    assert Vals(m, e, Instances(f, args)) == Vals(m, e2, args);
    if a.Eq? { assert args[0] == a.left && args[1] == a.right; }
  }

  ghost predicate ClauseValid<D(!new)>(m: Structure<D>, c: Clause) { forall e: Env<D> :: ClauseHolds(m, e, c) }

  /** A valid clause mapped into `ts` makes one of the targets true. */
  lemma MapsHold<D(!new)>(m: Structure<D>, e: Env<D>, f: VarId -> Term, c: Clause, ts: Clause) returns (j: nat)
    requires ClauseValid(m, c) && Maps(f, c, ts)
    ensures j < |ts| && LiteralHolds(m, e, ts[j])
  {
    var e2: Env<D> := (v: VarId) => Val(m, e, f(v));
    assert ClauseHolds(m, e2, c);
    var i :| 0 <= i < |c| && LiteralHolds(m, e2, c[i]);
    AtomInstanceHolds(m, e, f, c[i].atom);
    assert InTargets(LitInstance(f, c[i]), ts);
    j :| 0 <= j < |ts| && SameLiteral(LitInstance(f, c[i]), ts[j]);
  }

  /** A subsumed clause is redundant: it is valid wherever the first clause is. */
  lemma SubsumedEntailed<D(!new)>(m: Structure<D>, c1: Clause, c2: Clause)
    requires Subsumes(c1, c2) && ClauseValid(m, c1)
    ensures ClauseValid(m, c2)
  {
    var f := SubsumesSound(c1, c2);
    forall e: Env<D> ensures ClauseHolds(m, e, c2) {
      var j := MapsHold(m, e, f, c1, c2);
    }
  }

  // ----- subsumption resolution

  /** The target with literal `i` complemented. */
  function Flipped(ts: Clause, i: nat): Clause
    requires i < |ts|
  {
    ts[i := Literal(!ts[i].positive, ts[i].atom)]
  }

  function Dropped(ts: Clause, i: nat): Clause
    requires i < |ts|
  {
    ts[..i] + ts[i + 1..]
  }

  predicate ResolvesAt(active: Clause, target: Clause, i: nat)
    requires i < |target|
  {
    MatchLiterals(Renamed(active, ClauseBound(target)), Flipped(target, i), map[], ClauseBound(target))
  }

  /** `subsumption_resolution`: the first literal that can go, if the active clause is not empty
      and not longer than the target. */
  function SubsumptionResolution(active: Clause, target: Clause): (r: Option<nat>)
    ensures r.Some? <==>
      active != [] && |active| <= |target| && exists i :: 0 <= i < |target| && ResolvesAt(active, target, i)
    ensures r.Some? ==>
      && r.value < |target| && ResolvesAt(active, target, r.value)
      && forall i :: 0 <= i < r.value ==> !ResolvesAt(active, target, i)
  {
    if |active| > |target| || active == [] then None else FirstResolved(active, target, 0)
  }

  function FirstResolved(active: Clause, target: Clause, i: nat): (r: Option<nat>)
    requires i <= |target|
    ensures r.Some? ==> i <= r.value < |target| && ResolvesAt(active, target, r.value)
    ensures r.Some? ==> forall k :: i <= k < r.value ==> !ResolvesAt(active, target, k)
    ensures r.None? ==> forall k :: i <= k < |target| ==> !ResolvesAt(active, target, k)
    decreases |target| - i
  {
    if i == |target| then None
    else if ResolvesAt(active, target, i) then Some(i)
    else FirstResolved(active, target, i + 1)
  }

  lemma {:induction false} BoundByAtoms(c: Clause, d: Clause)
    requires |c| == |d| && forall i :: 0 <= i < |c| ==> c[i].atom == d[i].atom
    ensures ClauseBound(c) == ClauseBound(d)
  {
    if c != [] { BoundByAtoms(c[1..], d[1..]); }
  }

  /** Where the sizes allow it, a literal can go exactly when the active clause subsumes the target
      with that literal complemented. */
  lemma ResolvesBySubsumption(active: Clause, target: Clause, i: nat)
    requires i < |target| && active != [] && |active| <= |target|
    ensures ResolvesAt(active, target, i) <==> Subsumes(active, Flipped(target, i))
  {
    BoundByAtoms(target, Flipped(target, i));
  }

  /** Both parents together entail the target without the literal. */
  lemma ResolutionSound<D(!new)>(m: Structure<D>, active: Clause, target: Clause, i: nat)
    requires i < |target| && ResolvesAt(active, target, i)
    requires ClauseValid(m, active) && ClauseValid(m, target)
    ensures ClauseValid(m, Dropped(target, i))
  {
    var k := ClauseBound(target);
    var f := MatchGivesMap(active, Flipped(target, i), k);
    forall e: Env<D> ensures ClauseHolds(m, e, Dropped(target, i)) {
      var j := MapsHold(m, e, f, active, Flipped(target, i));
      assert ClauseHolds(m, e, target);
      var n: nat :| n < |target| && LiteralHolds(m, e, target[n]);
      var kept := if j != i then j else n;
      assert kept != i && LiteralHolds(m, e, target[kept]);
      assert Dropped(target, i)[if kept < i then kept else kept - 1] == target[kept];
    }
  }
}
