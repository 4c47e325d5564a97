/** The search for a subsuming substitution as shipped: a step limit and a deadline may cut it
    short, and then it says no. */
module SubsumptionSearch {
  import opened Wrappers
  import opened Deadlines
  import opened Fol
  import opened Matching
  import opened Extraction
  import opened Rewriting
  import S = Subsumption

  const STEP_LIMIT: nat := 5_000

  /** Steps of an exhaustive search for `n` literals among `m` targets: 1 + m + ... + m^(n-1). */
  function Exhaustive(n: nat, m: nat): nat { if n == 0 then 0 else 1 + m * Exhaustive(n - 1, m) }

  /** One backtracking search; `flipped` complements a target literal without copying the clause. */
  class Search {
    const targets: Clause
    const flipped: Option<nat>
    const minBindable: nat
    const deadline: Deadline
    const limit: nat
    var steps: nat

    ghost predicate Valid() {
      S.ClauseBelow(targets, minBindable) && (flipped.Some? ==> flipped.value < |targets|)
    }

    ghost function Effective(): (r: Clause)
      requires Valid()
      ensures |r| == |targets| && S.ClauseBelow(r, minBindable)
    {
      match flipped
      case None => targets
      case Some(i) =>
        assert forall j :: 0 <= j < |targets| ==> S.Flipped(targets, i)[j].atom == targets[j].atom;
        S.Flipped(targets, i)
    }

    constructor (targets: Clause, flipped: Option<nat>, minBindable: nat, deadline: Deadline)
      requires S.ClauseBelow(targets, minBindable) && (flipped.Some? ==> flipped.value < |targets|)
      ensures Valid() && steps == 0 && limit == STEP_LIMIT
      ensures this.targets == targets && this.flipped == flipped
      ensures this.minBindable == minBindable && this.deadline == deadline
    {
      this.targets := targets;
      this.flipped := flipped;
      this.minBindable := minBindable;
      this.deadline := deadline;
      this.limit := STEP_LIMIT;
      steps := 0;
    }

    /** `apply_subst_flat_id`: past the deadline the term is left as it is. */
    method ApplyFlat(s: Bindings, t: Term) returns (r: Term)
      modifies deadline
      ensures old(deadline.ticks) <= deadline.ticks
      ensures !deadline.Cut() ==> r == ApplyMatch(s, t)
      decreases t
    {
      var late := deadline.Passed();
      if late { return t; }
      if s == map[] {
        S.EmptySub(t);
        return t;
      }
      match t
      case Var(v) => r := if v in s then s[v] else t;
      case App(f, args) =>
        var now := args;
        for i := 0 to |args|
          invariant |now| == |args| && old(deadline.ticks) < deadline.ticks
          invariant !deadline.Cut() ==> forall n :: 0 <= n < i ==> now[n] == ApplyMatch(s, args[n])
          invariant forall n :: i <= n < |args| ==> now[n] == args[n]
        {
          var u := ApplyFlat(s, args[i]);
          now := now[i := u];
        }
        r := App(f, now);
    }

    /** `apply_subst_chain_id` on a target: it holds no bound variable, so nothing is followed. */
    method ApplyChain(s: Bindings, t: Term) returns (r: Term)
      requires S.Apart(s, minBindable) && S.Below(t, minBindable)
      modifies deadline
      ensures old(deadline.ticks) <= deadline.ticks
      ensures r == t
      decreases t
    {
      if s == map[] { return t; }
      var late := deadline.Passed();
      if late || t.Var? { return t; }
      var now := t.args;
      for i := 0 to |t.args|
        invariant now == t.args && old(deadline.ticks) <= deadline.ticks
      {
        S.ArgsBelow(t, i, minBindable);
        var u := ApplyChain(s, t.args[i]);
        now := now[i := u];
      }
      r := App(t.sym, now);
    }

    /** `contains_var_id`: past the deadline it says no. */
    method ContainsVar(t: Term, v: VarId) returns (r: bool)
      modifies deadline
      ensures old(deadline.ticks) <= deadline.ticks
      ensures !deadline.Cut() ==> r == (v in TermVars(t))
      decreases t
    {
      var late := deadline.Passed();
      if late { return false; }
      match t
      case Var(w) => r := w == v;
      case App(_, args) =>
        for i := 0 to |args|
          invariant old(deadline.ticks) < deadline.ticks
          invariant !deadline.Cut() ==> forall n :: 0 <= n < i ==> v !in TermVars(args[n])
        {
          var found := ContainsVar(args[i], v);
          if found { return true; }
        }
        r := false;
    }

    /** `match_single_term_id`. */
    method MatchSingle(p: Term, t: Term, s: Bindings) returns (ok: bool, s2: Bindings)
      requires S.Apart(s, minBindable) && S.Below(t, minBindable)
      modifies deadline
      ensures old(deadline.ticks) <= deadline.ticks
      ensures S.Apart(s2, minBindable)
      ensures !deadline.Cut() ==>
        var r := S.MatchSingle(p, t, s, minBindable);
        ok == r.Some? && (ok ==> s2 == r.value)
      decreases t, 0
    {
      var late := deadline.Passed();
      if late { return false, s; }
      match p
      case Var(v) =>
        if v in s { return s[v] == t, s; }
        if v < minBindable { return p == t, s; }
        var u := ApplyChain(s, t);
        S.ChainBelow(s, t, minBindable);
        late := deadline.Passed();
        if late { return false, s; }
        if u == Var(v) { return true, s; }
        var occurs := ContainsVar(u, v);
        if occurs { return false, s; }
        return true, s[v := u];
      case App(f, args) =>
        if t.Var? || f != t.sym || |args| != |t.args| { return false, s; }
        forall i | 0 <= i < |t.args| ensures S.Below(t.args[i], minBindable) { S.ArgsBelow(t, i, minBindable); }
        ok, s2 := MatchArgs(args, t.args, s);
    }

    /** The loops over argument pairs and over the two sides of an equation. */
    method MatchArgs(ps: seq<Term>, ts: seq<Term>, s: Bindings) returns (ok: bool, s2: Bindings)
      requires |ps| == |ts| && S.Apart(s, minBindable) && forall i :: 0 <= i < |ts| ==> S.Below(ts[i], minBindable)
      modifies deadline
      ensures old(deadline.ticks) <= deadline.ticks
      ensures S.Apart(s2, minBindable)
      ensures !deadline.Cut() ==>
        var r := S.MatchArgs(ps, ts, s, minBindable);
        ok == r.Some? && (ok ==> s2 == r.value)
      decreases ts, 1
    {
      s2 := s;
      assert ps[0..] == ps && ts[0..] == ts;
      for i := 0 to |ps|
        invariant old(deadline.ticks) <= deadline.ticks && S.Apart(s2, minBindable)
        invariant !deadline.Cut() ==>
          S.MatchArgs(ps, ts, s, minBindable) == S.MatchArgs(ps[i..], ts[i..], s2, minBindable)
      {
        assert ps[i..][1..] == ps[i + 1..] && ts[i..][1..] == ts[i + 1..];
        var late := deadline.Passed();
        if late { return false, s2; }
        var p := ApplyFlat(s2, ps[i]);
        ok, s2 := MatchSingle(p, ts[i], s2);
        if !ok { return; }
      }
      assert ps[|ps|..] == [];
      ok := true;
    }

    /** `match_atoms_id`. */
    method MatchAtoms(p: Atom, t: Atom, s: Bindings) returns (r: Option<Bindings>)
      requires S.Apart(s, minBindable) && forall v :: v in AtomVars(t) ==> v < minBindable
      modifies deadline
      ensures old(deadline.ticks) <= deadline.ticks
      ensures r.Some? ==> S.Apart(r.value, minBindable)
      ensures !deadline.Cut() ==> r == S.MatchAtoms(p, t, s, minBindable)
    {
      var late := deadline.Passed();
      if late { return None; }
      S.TargetSides(t, minBindable);
      if p.Pred? && t.Pred? {
        if p.sym != t.sym || |p.args| != |t.args| { return None; }
        var ok, s2 := MatchArgs(p.args, t.args, s);
        return if ok then Some(s2) else None;
      }
      if p.Eq? && t.Eq? {
        var ok, s2 := MatchArgs([p.left, p.right], [t.left, t.right], s);
        if ok { return Some(s2); }
        ok, s2 := MatchArgs([p.left, p.right], [t.right, t.left], s);
        return if ok then Some(s2) else None;
      }
      return None;
    }

    /** `match_literals_id`: a yes is always right; a no is right unless the search was cut. */
    method MatchLiterals(ps: Clause, s: Bindings) returns (ok: bool)
      requires Valid() && S.Apart(s, minBindable)
      modifies this`steps, deadline
      ensures old(steps) <= steps <= old(steps) + Exhaustive(|ps|, |targets|) && old(deadline.ticks) <= deadline.ticks
      ensures ok ==> !deadline.Cut() && S.MatchLiterals(ps, Effective(), s, minBindable)
      ensures !deadline.Cut() && steps <= limit ==> ok == S.MatchLiterals(ps, Effective(), s, minBindable)
      decreases |ps|
    {
      var late := deadline.Passed();
      if late { return false; }
      if ps == [] { return true; }
      steps := steps + 1;
      if steps > limit { return false; }
      ghost var ts := Effective();
      for j := 0 to |targets|
        invariant old(steps) <= steps <= old(steps) + 1 + j * Exhaustive(|ps| - 1, |targets|)
        invariant old(deadline.ticks) <= deadline.ticks
        invariant !deadline.Cut() && steps <= limit ==> forall n :: 0 <= n < j ==>
          !S.MatchVia(ps, ts, n, s, minBindable)
      {
        MoreTargets(j, |targets|, Exhaustive(|ps| - 1, |targets|));
        late := deadline.Passed();
        if late { return false; }
        var positive := if flipped == Some(j) then !targets[j].positive else targets[j].positive;
        if ps[0].positive == positive {
          var ext := MatchAtoms(ps[0].atom, targets[j].atom, s);
          if ext.Some? {
            ok := MatchLiterals(ps[1..], ext.value);
            if ok {
              assert S.MatchVia(ps, ts, j, s, minBindable);
              return;
            }
          }
        }
      }
      return false;
    }
  }

  lemma MoreTargets(j: nat, m: nat, k: nat)
    requires j < m
    ensures j * k + k == (j + 1) * k <= m * k
  {
    assert (m - (j + 1)) * k >= 0;
  }

  /** `is_ground_id` decides whether the renamed copy is needed. */
  method RenamedFor(c: Clause, k: nat) returns (r: Clause)
    ensures r == S.Renamed(c, k)
  {
    if S.ClauseBound(c) == 0 {
      S.GroundRenamed(c, k);
      r := c;
    } else {
      r := S.Renamed(c, k);
    }
  }

  /** `subsumes_id_until`: on clauses small enough for an exhaustive search the step limit never
      interferes, and otherwise a no without deadline is wrong only when the limit was hit. */
  method SubsumesUntil(c1: Clause, c2: Clause, deadline: Deadline) returns (r: bool, ghost limitHit: bool)
    modifies deadline
    ensures r ==> S.Subsumes(c1, c2)
    ensures !deadline.Cut() && !limitHit ==> r == S.Subsumes(c1, c2)
    ensures limitHit ==> Exhaustive(|c1|, |c2|) > 5_000
  {
    limitHit := false;
    if |c1| > |c2| { return false, false; }
    if c1 == [] { return true, false; }
    var pos1, neg1 := Signs(c1);
    var pos2, neg2 := Signs(c2);
    if (pos1 && !pos2) || (neg1 && !neg2) {
      if S.Subsumes(c1, c2) { S.SignsNeeded(c1, c2); }
      return false, false;
    }
    var k := S.ClauseBound(c2);
    var ps := RenamedFor(c1, k);
    var search := new Search(c2, None, k, deadline);
    r := search.MatchLiterals(ps, map[]);
    limitHit := search.steps > search.limit;
  }

  method Signs(c: Clause) returns (pos: bool, neg: bool)
    ensures pos == exists i :: 0 <= i < |c| && c[i].positive
    ensures neg == exists i :: 0 <= i < |c| && !c[i].positive
  {
    pos, neg := false, false;
    for i := 0 to |c|
      invariant pos == exists n :: 0 <= n < i && c[n].positive
      invariant neg == exists n :: 0 <= n < i && !c[n].positive
    {
      pos, neg := pos || c[i].positive, neg || !c[i].positive;
    }
  }

  /** `subsumption_resolution_id_until`: an index it names can always be dropped. */
  method SubsumptionResolutionUntil(active: Clause, target: Clause, deadline: Deadline)
    returns (r: Option<nat>, ghost limitHit: bool)
    modifies deadline
    ensures r.Some? ==> r.value < |target| && S.ResolvesAt(active, target, r.value)
    ensures !deadline.Cut() && !limitHit ==> r == S.SubsumptionResolution(active, target)
    ensures limitHit ==> Exhaustive(|active|, |target|) > 5_000
  {
    limitHit := false;
    if |active| > |target| || active == [] { return None, false; }
    var k := S.ClauseBound(target);
    var ps := RenamedFor(active, k);
    for i := 0 to |target|
      invariant limitHit ==> Exhaustive(|active|, |target|) > STEP_LIMIT
      invariant !deadline.Cut() && !limitHit ==>
        S.FirstResolved(active, target, 0) == S.FirstResolved(active, target, i)
    {
      var late := deadline.Passed();
      if late { return None, limitHit; }
      var search := new Search(target, Some(i), k, deadline);
      var matched := search.MatchLiterals(ps, map[]);
      if matched { return Some(i), limitHit; }
      limitHit := limitHit || search.steps > search.limit;
    }
    return None, limitHit;
  }
}
