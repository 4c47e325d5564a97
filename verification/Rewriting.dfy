/** Rewriting with unit equalities: one walk over a term, the passes over a clause, and the
    replay of recorded steps. */
module Rewriting {
  import opened Wrappers
  import opened Fol
  import opened TermOrder
  import opened Matching
  import opened Extraction

  type ClauseId = nat

  /** An oriented unit equality. */
  datatype Rule = Rule(lhs: Term, rhs: Term)

  /** The rules by the id of their unit clause, the retrieval function of the index that holds
      them, and the AVATAR context of each stored clause. */
  datatype Context = Context(
    rules: map<ClauseId, Rule>,
    lookup: Term -> seq<ClauseId>,
    store: map<ClauseId, set<nat>>)
  {
    /** The contract of the index: it returns stored rules only, in any order, and every rule
        whose left side generalises the query. Left sides are never variables, because a
        variable is greater than no term. */
    ghost predicate WellFormed() {
      && (forall t, id :: id in lookup(t) ==> id in rules)
      && (forall t, id :: id in rules && Match(rules[id].lhs, t, map[]).Some? ==> id in lookup(t))
      && (forall id :: id in rules ==> rules[id].lhs.App?)
    }

    /** A rule may be used on a clause that has all splits the rule depends on. */
    predicate Usable(id: ClauseId, target: set<nat>) { id in rules && id in store && store[id] <= target }
  }

  /** One application of a rule, and where; at term level the path starts at the term. */
  datatype Local = Local(id: ClauseId, path: seq<nat>)

  /** The recorded witness: the path starts at the literal's atom. */
  datatype Step = Step(id: ClauseId, lit: nat, path: seq<nat>)

  datatype Walked<T> = Walked(result: T, steps: seq<Local>)

  datatype Passed = Passed(result: Clause, steps: seq<Step>)

  function RewriteRoot(r: Rule, t: Term): Option<Term> {
    match Match(r.lhs, t, map[])
    case None => None
    case Some(s) => Some(ApplyMatch(s, r.rhs))
  }

  // ----- the uninterrupted, unmemoised walk

  /** The first candidate that is usable and matches. */
  function FirstRule(c: Context, target: set<nat>, ids: seq<ClauseId>, t: Term): Option<ClauseId> {
    if ids == [] then None
    else if c.Usable(ids[0], target) && RewriteRoot(c.rules[ids[0]], t).Some? then Some(ids[0])
    else FirstRule(c, target, ids[1..], t)
  }

  /** The rule at `k` is stored with splits the clause has and matches, and no earlier one does. */
  predicate FirstAt(c: Context, target: set<nat>, ids: seq<ClauseId>, k: nat, t: Term) {
    && k < |ids| && Fits(c, target, ids[k], t)
    && forall j :: 0 <= j < k ==> !Fits(c, target, ids[j], t)
  }

  predicate Fits(c: Context, target: set<nat>, id: ClauseId, t: Term) {
    id in c.rules && id in c.store && c.store[id] <= target && Match(c.rules[id].lhs, t, map[]).Some?
  }

  lemma {:induction false} FirstRuleIs(c: Context, target: set<nat>, ids: seq<ClauseId>, t: Term)
    ensures match FirstRule(c, target, ids, t)
      case Some(id) => exists k :: 0 <= k < |ids| && ids[k] == id && FirstAt(c, target, ids, k, t)
      case None => forall id :: id in ids && c.Usable(id, target) ==> RewriteRoot(c.rules[id], t).None?
  {
    if ids != [] {
      FirstRuleIs(c, target, ids[1..], t);
      assert forall id :: id in ids ==> id == ids[0] || id in ids[1..];
      if Fits(c, target, ids[0], t) {
        assert FirstAt(c, target, ids, 0, t);
      } else if k: nat :| k < |ids[1..]| && FirstAt(c, target, ids[1..], k, t) {
        forall j | 0 <= j < k + 1 ensures !Fits(c, target, ids[j], t) { if j > 0 { assert ids[j] == ids[1..][j - 1]; } }
        assert FirstAt(c, target, ids, k + 1, t);
      }
    }
  }

  function Root(c: Context, target: set<nat>, t: Term): (r: Option<ClauseId>)
    ensures r.Some? ==> c.Usable(r.value, target) && RewriteRoot(c.rules[r.value], t).Some?
  {
    FirstRuleIs(c, target, c.lookup(t), t);
    FirstRule(c, target, c.lookup(t), t)
  }

  /** The steps of a child, seen from its parent. */
  function Under(i: nat, ls: seq<Local>): seq<Local> {
    if ls == [] then [] else [Local(ls[0].id, [i] + ls[0].path)] + Under(i, ls[1..])
  }

  lemma UnderEmpty(i: nat, ls: seq<Local>)
    ensures Under(i, ls) == [] <==> ls == []
  {
  }

  /** Rewrites every outermost redex once, left to right. */
  function Walk(c: Context, target: set<nat>, t: Term): Walked<Term>
    decreases t, 1
  {
    match Root(c, target, t)
    case Some(id) => Walked(RewriteRoot(c.rules[id], t).value, [Local(id, [])])
    case None =>
      if t.Var? then Walked(t, [])
      else
        var w := WalkArgs(c, target, t.args, 0);
        Walked(App(t.sym, w.result), w.steps)
  }

  function WalkArgs(c: Context, target: set<nat>, ts: seq<Term>, i: nat): (w: Walked<seq<Term>>)
    ensures |w.result| == |ts|
    decreases ts, 0
  {
    if ts == [] then Walked([], []) else
    var w := Walk(c, target, ts[0]);
    var r := WalkArgs(c, target, ts[1..], i + 1);
    Walked([w.result] + r.result, Under(i, w.steps) + r.steps)
  }

  // ----- replay

  function ApplyAt(r: Rule, t: Term, path: seq<nat>): Option<Term>
    decreases |path|, 1
  {
    if path == [] then RewriteRoot(r, t)
    else if t.Var? then None
    else match ApplyAtArgs(r, t.args, path)
      case None => None
      case Some(args) => Some(App(t.sym, args))
  }

  function ApplyAtArgs(r: Rule, ts: seq<Term>, path: seq<nat>): (o: Option<seq<Term>>)
    ensures o.Some? ==> |o.value| == |ts|
    decreases |path|, 0
  {
    if path == [] || path[0] >= |ts| then None
    else match ApplyAt(r, ts[path[0]], path[1..])
      case None => None
      case Some(u) => Some(ts[path[0] := u])
  }

  function ReplayTerm(rules: map<ClauseId, Rule>, t: Term, ls: seq<Local>): Option<Term>
    decreases |ls|
  {
    if ls == [] then Some(t)
    else if ls[0].id !in rules then None
    else match ApplyAt(rules[ls[0].id], t, ls[0].path)
      case None => None
      case Some(u) => ReplayTerm(rules, u, ls[1..])
  }

  function ReplayArgs(rules: map<ClauseId, Rule>, ts: seq<Term>, ls: seq<Local>): (o: Option<seq<Term>>)
    ensures o.Some? ==> |o.value| == |ts|
    decreases |ls|
  {
    if ls == [] then Some(ts)
    else if ls[0].id !in rules then None
    else match ApplyAtArgs(rules[ls[0].id], ts, ls[0].path)
      case None => None
      case Some(us) => ReplayArgs(rules, us, ls[1..])
  }

  function AtomArgs(a: Atom): seq<Term> { if a.Pred? then a.args else [a.left, a.right] }

  function WithArgs(a: Atom, ts: seq<Term>): Atom
    requires |ts| == |AtomArgs(a)|
  {
    if a.Pred? then Pred(a.sym, ts) else Eq(ts[0], ts[1])
  }

  function WithLit(c: Clause, i: nat, ts: seq<Term>): Clause
    requires i < |c| && |ts| == |AtomArgs(c[i].atom)|
  {
    c[i := Literal(c[i].positive, WithArgs(c[i].atom, ts))]
  }

  /** Replaying recorded steps, in order, from a clause. */
  function Replay(rules: map<ClauseId, Rule>, c: Clause, steps: seq<Step>): Option<Clause>
    decreases |steps|
  {
    if steps == [] then Some(c)
    else if steps[0].id !in rules || steps[0].lit >= |c| then None
    else match ApplyAtArgs(rules[steps[0].id], AtomArgs(c[steps[0].lit].atom), steps[0].path)
      case None => None
      case Some(ts) => Replay(rules, WithLit(c, steps[0].lit, ts), steps[1..])
  }

  /** The recorded form of steps made below `prefix` in literal `lit`. */
  function Recorded(ls: seq<Local>, lit: nat, prefix: seq<nat>): (r: seq<Step>)
    ensures |r| == |ls|
  {
    if ls == [] then [] else [Step(ls[0].id, lit, prefix + ls[0].path)] + Recorded(ls[1..], lit, prefix)
  }

  lemma {:induction false} RecordedAppend(a: seq<Local>, b: seq<Local>, lit: nat, prefix: seq<nat>)
    ensures Recorded(a + b, lit, prefix) == Recorded(a, lit, prefix) + Recorded(b, lit, prefix)
  {
    if a == [] {
      assert a + b == b && [] + Recorded(b, lit, prefix) == Recorded(b, lit, prefix);
    } else {
      RecordedAppend(a[1..], b, lit, prefix);
      assert (a + b)[0] == a[0] && (a + b)[1..] == a[1..] + b;
      ConcatAssoc([Step(a[0].id, lit, prefix + a[0].path)], Recorded(a[1..], lit, prefix), Recorded(b, lit, prefix));
    }
  }

  lemma {:induction false} RecordedUnder(i: nat, ls: seq<Local>, lit: nat, prefix: seq<nat>)
    ensures Recorded(Under(i, ls), lit, prefix) == Recorded(ls, lit, prefix + [i])
  {
    if ls != [] {
      RecordedUnder(i, ls[1..], lit, prefix);
      assert prefix + ([i] + ls[0].path) == (prefix + [i]) + ls[0].path;
      assert Under(i, ls)[1..] == Under(i, ls[1..]);
    }
  }

  lemma {:induction false} ReplayArgsAppend(rules: map<ClauseId, Rule>, ts: seq<Term>, a: seq<Local>, b: seq<Local>)
    requires ReplayArgs(rules, ts, a).Some?
    ensures ReplayArgs(rules, ts, a + b) == ReplayArgs(rules, ReplayArgs(rules, ts, a).value, b)
    decreases |a|
  {
    if a == [] {
      assert a + b == b;
    } else {
      assert (a + b)[1..] == a[1..] + b;
      ReplayArgsAppend(rules, ApplyAtArgs(rules[a[0].id], ts, a[0].path).value, a[1..], b);
    }
  }

  /** Steps inside one argument act on that argument alone. */
  lemma {:induction false} ReplayUnder(rules: map<ClauseId, Rule>, ts: seq<Term>, i: nat, ls: seq<Local>)
    requires i < |ts| && ReplayTerm(rules, ts[i], ls).Some?
    ensures ReplayArgs(rules, ts, Under(i, ls)) == Some(ts[i := ReplayTerm(rules, ts[i], ls).value])
    decreases |ls|
  {
    if ls == [] {
      assert ts[i := ts[i]] == ts;
    } else {
      var u := ApplyAt(rules[ls[0].id], ts[i], ls[0].path).value;
      assert ([i] + ls[0].path)[1..] == ls[0].path;
      assert Under(i, ls)[1..] == Under(i, ls[1..]);
      ReplayUnder(rules, ts[i := u], i, ls[1..]);
      assert ts[i := u][i := ReplayTerm(rules, ts[i], ls).value] == ts[i := ReplayTerm(rules, ts[i], ls).value];
    }
  }

  /** Steps on the arguments are steps on the application. */
  lemma {:induction false} ReplayApp(rules: map<ClauseId, Rule>, f: SymbolId, ts: seq<Term>, ls: seq<Local>)
    requires ReplayArgs(rules, ts, ls).Some?
    ensures ReplayTerm(rules, App(f, ts), ls) == Some(App(f, ReplayArgs(rules, ts, ls).value))
    decreases |ls|
  {
    if ls != [] {
      ReplayApp(rules, f, ApplyAtArgs(rules[ls[0].id], ts, ls[0].path).value, ls[1..]);
    }
  }

  lemma WithLitTwice(c: Clause, i: nat, ts: seq<Term>, us: seq<Term>)
    requires i < |c| && |ts| == |us| == |AtomArgs(c[i].atom)|
    ensures AtomArgs(WithLit(c, i, ts)[i].atom) == ts
    ensures WithLit(WithLit(c, i, ts), i, us) == WithLit(c, i, us)
    ensures WithLit(c, i, AtomArgs(c[i].atom)) == c
  {
  }

  lemma {:induction false} ReplayLit(rules: map<ClauseId, Rule>, c: Clause, i: nat, ls: seq<Local>)
    requires i < |c| && ReplayArgs(rules, AtomArgs(c[i].atom), ls).Some?
    ensures Replay(rules, c, Recorded(ls, i, [])) ==
      Some(WithLit(c, i, ReplayArgs(rules, AtomArgs(c[i].atom), ls).value))
    decreases |ls|
  {
    var args := AtomArgs(c[i].atom);
    WithLitTwice(c, i, args, args);
    if ls != [] {
      var ts := ApplyAtArgs(rules[ls[0].id], args, ls[0].path).value;
      assert [] + ls[0].path == ls[0].path;
      assert Recorded(ls, i, [])[1..] == Recorded(ls[1..], i, []);
      WithLitTwice(c, i, ts, ReplayArgs(rules, ts, ls[1..]).value);
      ReplayLit(rules, WithLit(c, i, ts), i, ls[1..]);
    }
  }

  lemma {:induction false} ReplayAppend(rules: map<ClauseId, Rule>, c: Clause, a: seq<Step>, b: seq<Step>)
    requires Replay(rules, c, a).Some?
    ensures Replay(rules, c, a + b) == Replay(rules, Replay(rules, c, a).value, b)
    decreases |a|
  {
    if a == [] {
      assert a + b == b;
    } else {
      assert (a + b)[1..] == a[1..] + b;
      var ts := ApplyAtArgs(rules[a[0].id], AtomArgs(c[a[0].lit].atom), a[0].path).value;
      ReplayAppend(rules, WithLit(c, a[0].lit, ts), a[1..], b);
    }
  }

  // ----- irreducibility

  /** No usable rule applies anywhere in `t`. */
  ghost predicate Irreducible(c: Context, target: set<nat>, t: Term) {
    forall id, path :: c.Usable(id, target) ==> ApplyAt(c.rules[id], t, path).None?
  }

  ghost predicate IrreducibleArgs(c: Context, target: set<nat>, ts: seq<Term>) {
    forall id, path :: c.Usable(id, target) ==> ApplyAtArgs(c.rules[id], ts, path).None?
  }

  lemma NoRootRule(c: Context, target: set<nat>, t: Term)
    requires c.WellFormed()
    ensures Root(c, target, t).None? <==> forall id :: c.Usable(id, target) ==> RewriteRoot(c.rules[id], t).None?
  {
    FirstRuleIs(c, target, c.lookup(t), t);
  }

  lemma IrreducibleArgsCons(c: Context, target: set<nat>, ts: seq<Term>)
    ensures IrreducibleArgs(c, target, ts) <==> forall i :: 0 <= i < |ts| ==> Irreducible(c, target, ts[i])
  {
    if IrreducibleArgs(c, target, ts) {
      forall i, id, path: seq<nat> | 0 <= i < |ts| && c.Usable(id, target)
        ensures ApplyAt(c.rules[id], ts[i], path).None?
      {
        assert ([i] + path)[1..] == path;
        assert ApplyAtArgs(c.rules[id], ts, [i] + path).None?;
      }
    } else if forall i :: 0 <= i < |ts| ==> Irreducible(c, target, ts[i]) {
      forall id, path | c.Usable(id, target) ensures ApplyAtArgs(c.rules[id], ts, path).None? {
        if path != [] && path[0] < |ts| { assert ApplyAt(c.rules[id], ts[path[0]], path[1..]).None?; }
      }
    }
  }

  lemma IrreducibleApp(c: Context, target: set<nat>, t: Term)
    requires c.WellFormed()
    ensures Irreducible(c, target, t) <==> Root(c, target, t).None? && (t.App? ==> IrreducibleArgs(c, target, t.args))
  {
    NoRootRule(c, target, t);
    if Irreducible(c, target, t) {
      forall id | c.Usable(id, target) ensures RewriteRoot(c.rules[id], t).None? {
        assert ApplyAt(c.rules[id], t, []).None?;
      }
      if t.App? {
        forall id, path | c.Usable(id, target) ensures ApplyAtArgs(c.rules[id], t.args, path).None? {
          assert ApplyAt(c.rules[id], t, path).None?;
        }
      }
    } else if Root(c, target, t).None? && (t.App? ==> IrreducibleArgs(c, target, t.args)) {
      forall id, path | c.Usable(id, target) ensures ApplyAt(c.rules[id], t, path).None? {
        if path != [] && t.App? { assert ApplyAtArgs(c.rules[id], t.args, path).None?; }
      }
    }
  }

  /** The walk makes no step exactly on irreducible terms, and then changes nothing. */
  lemma {:induction false} WalkIrreducible(c: Context, target: set<nat>, t: Term)
    requires c.WellFormed()
    ensures Walk(c, target, t).steps == [] <==> Irreducible(c, target, t)
    ensures Walk(c, target, t).steps == [] ==> Walk(c, target, t).result == t
    decreases t, 1
  {
    IrreducibleApp(c, target, t);
    if t.App? && Root(c, target, t).None? { WalkArgsIrreducible(c, target, t.args, 0); }
  }

  lemma {:induction false} WalkArgsIrreducible(c: Context, target: set<nat>, ts: seq<Term>, i: nat)
    requires c.WellFormed()
    ensures WalkArgs(c, target, ts, i).steps == [] <==> IrreducibleArgs(c, target, ts)
    ensures WalkArgs(c, target, ts, i).steps == [] ==> WalkArgs(c, target, ts, i).result == ts
    decreases ts, 0
  {
    IrreducibleArgsCons(c, target, ts);
    if ts != [] {
      WalkIrreducible(c, target, ts[0]);
      WalkArgsIrreducible(c, target, ts[1..], i + 1);
      IrreducibleArgsCons(c, target, ts[1..]);
      assert ts == [ts[0]] + ts[1..];
    }
  }

  /** Variables are irreducible, so the memo may answer for them without an entry. */
  lemma VarIrreducible(c: Context, target: set<nat>, v: VarId)
    requires c.WellFormed()
    ensures Irreducible(c, target, Var(v))
  {
    NoRootRule(c, target, Var(v));
    IrreducibleApp(c, target, Var(v));
  }

  // ----- which redexes one walk contracts

  /** A usable rule matches the subterm at `path`. */
  ghost predicate Redex(c: Context, target: set<nat>, t: Term, path: seq<nat>) {
    exists id :: c.Usable(id, target) && ApplyAt(c.rules[id], t, path).Some?
  }

  /** No redex encloses this one. */
  ghost predicate Outermost(c: Context, target: set<nat>, t: Term, path: seq<nat>) {
    Redex(c, target, t, path) && forall k :: 0 <= k < |path| ==> !Redex(c, target, t, path[..k])
  }

  predicate Before(p: seq<nat>, q: seq<nat>) {
    p != [] && q != [] && (p[0] < q[0] || (p[0] == q[0] && Before(p[1..], q[1..])))
  }

  /** Every position is to the left of the next. */
  ghost predicate LeftToRight(ls: seq<Local>) { forall i, j :: 0 <= i < j < |ls| ==> Before(ls[i].path, ls[j].path) }

  predicate StepAt(ls: seq<Local>, path: seq<nat>) { exists k :: 0 <= k < |ls| && ls[k].path == path }

  lemma {:induction false} UnderAt(i: nat, ls: seq<Local>)
    ensures |Under(i, ls)| == |ls|
    ensures forall k :: 0 <= k < |ls| ==> Under(i, ls)[k] == Local(ls[k].id, [i] + ls[k].path)
  {
    if ls != [] { UnderAt(i, ls[1..]); }
  }

  lemma UnderSteps(i: nat, ls: seq<Local>, path: seq<nat>)
    ensures StepAt(Under(i, ls), path) <==> path != [] && path[0] == i && StepAt(ls, path[1..])
  {
    UnderAt(i, ls);
    if k :| 0 <= k < |ls| && Under(i, ls)[k].path == path { assert ([i] + ls[k].path)[1..] == ls[k].path; }
    if path != [] && path[0] == i {
      if k :| 0 <= k < |ls| && ls[k].path == path[1..] { assert Under(i, ls)[k].path == [i] + path[1..] == path; }
    }
  }

  lemma StepsConcat(a: seq<Local>, b: seq<Local>, path: seq<nat>)
    ensures StepAt(a + b, path) <==> StepAt(a, path) || StepAt(b, path)
  {
    if k :| 0 <= k < |a| && a[k].path == path { assert (a + b)[k].path == path; }
    if k :| 0 <= k < |b| && b[k].path == path { assert (a + b)[|a| + k].path == path; }
  }

  lemma UnderOrder(i: nat, ls: seq<Local>)
    requires LeftToRight(ls)
    ensures LeftToRight(Under(i, ls))
  {
    UnderAt(i, ls);
    forall j, k | 0 <= j < k < |ls| ensures Before([i] + ls[j].path, [i] + ls[k].path) {
      assert ([i] + ls[j].path)[1..] == ls[j].path && ([i] + ls[k].path)[1..] == ls[k].path;
    }
  }

  lemma RedexInside(c: Context, target: set<nat>, t: Term, path: seq<nat>)
    requires path != []
    ensures Redex(c, target, t, path) <==>
      t.App? && path[0] < |t.args| && Redex(c, target, t.args[path[0]], path[1..])
  {
    forall id | c.Usable(id, target)
      ensures ApplyAt(c.rules[id], t, path).Some? <==>
        t.App? && path[0] < |t.args| && ApplyAt(c.rules[id], t.args[path[0]], path[1..]).Some?
    {
      assert ApplyAt(c.rules[id], t, path).Some? <==> t.App? && ApplyAtArgs(c.rules[id], t.args, path).Some?;
    }
  }

  /** Under a root no rule matches, the outermost redexes are those of the arguments. */
  lemma OutermostInside(c: Context, target: set<nat>, t: Term, path: seq<nat>)
    requires c.WellFormed() && Root(c, target, t).None?
    ensures Outermost(c, target, t, path) <==>
      t.App? && path != [] && path[0] < |t.args| && Outermost(c, target, t.args[path[0]], path[1..])
  {
    NoRootRule(c, target, t);
    assert !Redex(c, target, t, []);
    if path != [] {
      RedexInside(c, target, t, path);
      if t.App? && path[0] < |t.args| {
        var u := t.args[path[0]];
        forall k | 0 < k < |path| ensures Redex(c, target, t, path[..k]) <==> Redex(c, target, u, path[1..][..k - 1]) {
          RedexInside(c, target, t, path[..k]);
          assert path[..k][1..] == path[1..][..k - 1];
        }
        if Outermost(c, target, t, path) {
          forall k | 0 <= k < |path[1..]| ensures !Redex(c, target, u, path[1..][..k]) {
            assert !Redex(c, target, t, path[..k + 1]);
          }
        }
        if Outermost(c, target, u, path[1..]) {
          forall k | 0 <= k < |path| ensures !Redex(c, target, t, path[..k]) {
            if k == 0 { assert path[..0] == []; } else { assert !Redex(c, target, u, path[1..][..k - 1]); }
          }
        }
      }
    }
  }

  /** One walk contracts exactly the outermost redexes, each once, from left to right. */
  lemma {:induction false} WalkOutermost(c: Context, target: set<nat>, t: Term)
    requires c.WellFormed()
    ensures forall path :: StepAt(Walk(c, target, t).steps, path) <==> Outermost(c, target, t, path)
    ensures LeftToRight(Walk(c, target, t).steps)
    decreases t, 1
  {
    NoRootRule(c, target, t);
    var steps := Walk(c, target, t).steps;
    if Root(c, target, t).Some? {
      var id := Root(c, target, t).value;
      assert ApplyAt(c.rules[id], t, []).Some? && Redex(c, target, t, []);
      forall path: seq<nat> ensures StepAt(steps, path) <==> Outermost(c, target, t, path) {
        assert StepAt(steps, path) <==> steps[0].path == path;
        if path != [] { assert path[..0] == []; }
      }
    } else {
      if t.App? { WalkArgsOutermost(c, target, t.args, 0); }
      forall path: seq<nat> ensures StepAt(steps, path) <==> Outermost(c, target, t, path) {
        OutermostInside(c, target, t, path);
      }
    }
  }

  lemma {:induction false} WalkArgsOutermost(c: Context, target: set<nat>, ts: seq<Term>, i: nat)
    requires c.WellFormed()
    ensures forall path :: StepAt(WalkArgs(c, target, ts, i).steps, path) <==>
      path != [] && i <= path[0] < i + |ts| && Outermost(c, target, ts[path[0] - i], path[1..])
    ensures LeftToRight(WalkArgs(c, target, ts, i).steps)
    decreases ts, 0
  {
    if ts != [] {
      var w, r := Walk(c, target, ts[0]), WalkArgs(c, target, ts[1..], i + 1);
      WalkOutermost(c, target, ts[0]);
      WalkArgsOutermost(c, target, ts[1..], i + 1);
      forall path: seq<nat>
        ensures StepAt(Under(i, w.steps) + r.steps, path) <==>
          path != [] && i <= path[0] < i + |ts| && Outermost(c, target, ts[path[0] - i], path[1..])
      {
        StepsConcat(Under(i, w.steps), r.steps, path);
        UnderSteps(i, w.steps, path);
        if path != [] && i < path[0] < i + |ts| { assert ts[1..][path[0] - (i + 1)] == ts[path[0] - i]; }
      }
      UnderOrder(i, w.steps);
      forall path | StepAt(Under(i, w.steps), path) ensures path != [] && path[0] == i {
        UnderSteps(i, w.steps, path);
      }
      OrderConcat(i, Under(i, w.steps), r.steps);
    }
  }

  lemma OrderConcat(i: nat, a: seq<Local>, b: seq<Local>)
    requires LeftToRight(a) && LeftToRight(b)
    requires forall path :: StepAt(a, path) ==> path != [] && path[0] == i
    requires forall path :: StepAt(b, path) ==> path != [] && path[0] > i
    ensures LeftToRight(a + b)
  {
    forall j, k | 0 <= j < k < |a + b| ensures Before((a + b)[j].path, (a + b)[k].path) {
      if j < |a| <= k { assert StepAt(a, a[j].path) && StepAt(b, b[k - |a|].path); }
    }
  }

  // ----- passes over a clause

  function PassFrom(c: Context, target: set<nat>, lits: Clause, i: nat): Passed
    requires i <= |lits|
    decreases |lits| - i
  {
    if i == |lits| then Passed(lits, []) else
    var args := AtomArgs(lits[i].atom);
    var w := WalkArgs(c, target, args, 0);
    var r := PassFrom(c, target, WithLit(lits, i, w.result), i + 1);
    Passed(r.result, Recorded(w.steps, i, []) + r.steps)
  }

  /** A pass walks every argument list from its position on, and leaves signs, symbols and the
      literals before it alone. */
  lemma {:induction false} PassEach(c: Context, target: set<nat>, lits: Clause, i: nat)
    requires i <= |lits|
    ensures WalkedFrom(c, target, lits, i, PassFrom(c, target, lits, i).result)
    decreases |lits| - i
  {
    if i < |lits| {
      var next := WithLit(lits, i, WalkArgs(c, target, AtomArgs(lits[i].atom), 0).result);
      PassEach(c, target, next, i + 1);
      var r := PassFrom(c, target, next, i + 1).result;
      forall k | i <= k < |lits| ensures r[k] == WalkedLit(c, target, lits[k]) {
        if k > i { assert next[k] == lits[k]; }
      }
    }
  }

  /** The literal with each argument walked once. */
  function WalkedLit(c: Context, target: set<nat>, l: Literal): Literal {
    Literal(l.positive, WithArgs(l.atom, WalkArgs(c, target, AtomArgs(l.atom), 0).result))
  }

  ghost predicate WalkedFrom(c: Context, target: set<nat>, lits: Clause, i: nat, r: Clause) {
    && |r| == |lits|
    && (forall k :: 0 <= k < i && k < |lits| ==> r[k] == lits[k])
    && (forall k :: i <= k < |lits| ==> r[k] == WalkedLit(c, target, lits[k]))
  }

  /** At most `n` passes; a pass without a step is the last. */
  function Passes(c: Context, target: set<nat>, lits: Clause, n: nat): Passed
    decreases n
  {
    if n == 0 then Passed(lits, []) else
    var p := PassFrom(c, target, lits, 0);
    if p.steps == [] then Passed(lits, []) else
    var q := Passes(c, target, p.result, n - 1);
    Passed(q.result, p.steps + q.steps)
  }

  ghost predicate IrreducibleClause(c: Context, target: set<nat>, lits: Clause) {
    forall i :: 0 <= i < |lits| ==> IrreducibleArgs(c, target, AtomArgs(lits[i].atom))
  }

  lemma {:induction false} PassIrreducible(c: Context, target: set<nat>, lits: Clause, i: nat)
    requires c.WellFormed() && i <= |lits| && PassFrom(c, target, lits, i).steps == []
    ensures PassFrom(c, target, lits, i).result == lits
    ensures forall k :: i <= k < |lits| ==> IrreducibleArgs(c, target, AtomArgs(lits[k].atom))
    decreases |lits| - i
  {
    if i < |lits| {
      var args := AtomArgs(lits[i].atom);
      WalkArgsIrreducible(c, target, args, 0);
      WithLitTwice(lits, i, args, args);
      PassIrreducible(c, target, lits, i + 1);
    }
  }

  /** The number of passes that made a step. */
  function Productive(c: Context, target: set<nat>, lits: Clause, n: nat): nat
    decreases n
  {
    if n == 0 then 0 else
    var p := PassFrom(c, target, lits, 0);
    if p.steps == [] then 0 else 1 + Productive(c, target, p.result, n - 1)
  }

  lemma PassesUnroll(c: Context, target: set<nat>, lits: Clause, n: nat)
    requires n > 0
    ensures var p := PassFrom(c, target, lits, 0);
      if p.steps == [] then Passes(c, target, lits, n).result == lits && Productive(c, target, lits, n) == 0
      else
        && Passes(c, target, lits, n).result == Passes(c, target, p.result, n - 1).result
        && Productive(c, target, lits, n) == 1 + Productive(c, target, p.result, n - 1)
  {
  }

  /** Unless every one of the allowed passes made a step, the result is fully reduced. */
  lemma {:induction false} PassesNormalise(c: Context, target: set<nat>, lits: Clause, n: nat)
    requires c.WellFormed()
    ensures Productive(c, target, lits, n) < n ==> IrreducibleClause(c, target, Passes(c, target, lits, n).result)
    decreases n
  {
    if n > 0 {
      PassesUnroll(c, target, lits, n);
      var p := PassFrom(c, target, lits, 0);
      if p.steps == [] { PassStuck(c, target, lits); } else { PassesNormalise(c, target, p.result, n - 1); }
    }
  }

  lemma PassStuck(c: Context, target: set<nat>, lits: Clause)
    requires c.WellFormed() && PassFrom(c, target, lits, 0).steps == []
    ensures IrreducibleClause(c, target, lits)
  {
    PassIrreducible(c, target, lits, 0);
  }

  /** Every productive pass makes a step. */
  lemma {:induction false} ProductiveBound(c: Context, target: set<nat>, lits: Clause, n: nat)
    ensures Productive(c, target, lits, n) <= |Passes(c, target, lits, n).steps|
    decreases n
  {
    if n > 0 { ProductiveBound(c, target, PassFrom(c, target, lits, 0).result, n - 1); }
  }

  // ----- splits

  /** Every step cites a stored rule all of whose splits the clause has. */
  ghost predicate Admitted(c: Context, target: set<nat>, steps: seq<Step>) {
    forall k :: 0 <= k < |steps| ==>
      steps[k].id in c.rules && steps[k].id in c.store && c.store[steps[k].id] <= target
  }

  /** No stored rule all of whose splits the clause has matches anywhere in it. */
  ghost predicate FullyReduced(c: Context, target: set<nat>, lits: Clause) {
    forall id, i, path :: id in c.rules && id in c.store && c.store[id] <= target && 0 <= i < |lits| ==>
      ApplyAtArgs(c.rules[id], AtomArgs(lits[i].atom), path).None?
  }

  lemma ReducedExact(c: Context, target: set<nat>, lits: Clause)
    ensures FullyReduced(c, target, lits) <==> IrreducibleClause(c, target, lits)
  {
    if FullyReduced(c, target, lits) {
      forall i, id, path | 0 <= i < |lits| && c.Usable(id, target)
        ensures ApplyAtArgs(c.rules[id], AtomArgs(lits[i].atom), path).None? {}
    }
    if IrreducibleClause(c, target, lits) {
      forall id, i, path | id in c.rules && id in c.store && c.store[id] <= target && 0 <= i < |lits|
        ensures ApplyAtArgs(c.rules[id], AtomArgs(lits[i].atom), path).None?
      {
        assert c.Usable(id, target) && IrreducibleArgs(c, target, AtomArgs(lits[i].atom));
      }
    }
  }

  /** With a pass or a step to spare, no stored rule the clause admits is left to apply. */
  lemma PassesReduce(c: Context, target: set<nat>, lits: Clause, n: nat)
    requires c.WellFormed()
    requires Productive(c, target, lits, n) < n || |Passes(c, target, lits, n).steps| < n
    ensures FullyReduced(c, target, Passes(c, target, lits, n).result)
  {
    ProductiveBound(c, target, lits, n);
    PassesNormalise(c, target, lits, n);
    ReducedExact(c, target, Passes(c, target, lits, n).result);
  }

  // ----- meaning

  /** Each stored rule is valid in `m` as soon as all its splits are among the true ones. */
  ghost predicate RulesTrueUnder<D(!new)>(m: Structure<D>, c: Context, on: set<nat>) {
    forall id :: id in c.rules && id in c.store && c.store[id] <= on ==> RuleTrue(m, c.rules[id])
  }

  /** Under every choice of true splits that contains those of the clause, replaying admitted
      steps gives an equivalent clause. */
  lemma SplitEquivalent<D(!new)>(m: Structure<D>, e: Env<D>, c: Context, target: set<nat>, on: set<nat>,
                                 lits: Clause, steps: seq<Step>)
    requires Admitted(c, target, steps) && Replay(c.rules, lits, steps).Some?
    requires target <= on && RulesTrueUnder(m, c, on)
    ensures ClauseHolds(m, e, Replay(c.rules, lits, steps).value) == ClauseHolds(m, e, lits)
  {
    forall k | 0 <= k < |steps| && steps[k].id in c.rules ensures RuleTrue(m, c.rules[steps[k].id]) {}
    ReplayEquivalent(m, e, c.rules, lits, steps);
  }

  /** Whatever splits are true besides those of the clause, `lits` and `result` are equivalent
      wherever the rules of the true splits are valid. */
  ghost predicate SameUnderSplits(c: Context, target: set<nat>, lits: Clause, result: Clause) {
    forall on: set<nat>, m: Structure<int>, e: Env<int> :: target <= on && RulesTrueUnder(m, c, on) ==>
      ClauseHolds(m, e, result) == ClauseHolds(m, e, lits)
  }

  lemma AdmittedSame(c: Context, target: set<nat>, lits: Clause, steps: seq<Step>)
    requires Admitted(c, target, steps) && Replay(c.rules, lits, steps).Some?
    ensures SameUnderSplits(c, target, lits, Replay(c.rules, lits, steps).value)
  {
    forall on: set<nat>, m: Structure<int>, e: Env<int> | target <= on && RulesTrueUnder(m, c, on)
      ensures ClauseHolds(m, e, Replay(c.rules, lits, steps).value) == ClauseHolds(m, e, lits)
    {
      SplitEquivalent(m, e, c, target, on, lits, steps);
    }
  }

  ghost predicate RuleTrue<D(!new)>(m: Structure<D>, r: Rule) { Valid(m, AtomF(Eq(r.lhs, r.rhs))) }

  /** The value of an instance is the value under the assignment of the images. */
  lemma {:induction false} InstanceVal<D(!new)>(m: Structure<D>, e: Env<D>, f: VarId -> Term, t: Term)
    ensures Val(m, e, Instance(f, t)) == Val(m, (v: VarId) => Val(m, e, f(v)), t)
    decreases t
  {
    if t.App? {
      var e2: Env<D> := (v: VarId) => Val(m, e, f(v));
      forall i | 0 <= i < |t.args| ensures Val(m, e, Instance(f, t.args[i])) == Val(m, e2, t.args[i]) {
        InstanceVal(m, e, f, t.args[i]);
      }
      assert Vals(m, e, Instances(f, t.args)) == Vals(m, e2, t.args);
    }
  }

  lemma RewriteRootVal<D(!new)>(m: Structure<D>, e: Env<D>, r: Rule, t: Term)
    requires RuleTrue(m, r) && RewriteRoot(r, t).Some?
    ensures Val(m, e, RewriteRoot(r, t).value) == Val(m, e, t)
  {
    var s := Match(r.lhs, t, map[]).value;
    MatchExact(r.lhs, t);
    var e2: Env<D> := (v: VarId) => Val(m, e, Sub(s)(v));
    InstanceVal(m, e, Sub(s), r.lhs);
    InstanceVal(m, e, Sub(s), r.rhs);
    assert Holds(m, e2, AtomF(Eq(r.lhs, r.rhs)));
  }

  lemma {:induction false} ApplyAtVal<D(!new)>(m: Structure<D>, e: Env<D>, r: Rule, t: Term, path: seq<nat>)
    requires RuleTrue(m, r) && ApplyAt(r, t, path).Some?
    ensures Val(m, e, ApplyAt(r, t, path).value) == Val(m, e, t)
    decreases |path|, 1
  {
    if path == [] { RewriteRootVal(m, e, r, t); } else { ApplyAtArgsVals(m, e, r, t.args, path); }
  }

  lemma {:induction false} ApplyAtArgsVals<D(!new)>(m: Structure<D>, e: Env<D>, r: Rule, ts: seq<Term>, path: seq<nat>)
    requires RuleTrue(m, r) && ApplyAtArgs(r, ts, path).Some?
    ensures Vals(m, e, ApplyAtArgs(r, ts, path).value) == Vals(m, e, ts)
    decreases |path|, 0
  {
    ApplyAtVal(m, e, r, ts[path[0]], path[1..]);
  }

  lemma WithArgsHolds<D(!new)>(m: Structure<D>, e: Env<D>, a: Atom, ts: seq<Term>)
    requires |ts| == |AtomArgs(a)| && Vals(m, e, ts) == Vals(m, e, AtomArgs(a))
    ensures AtomHolds(m, e, WithArgs(a, ts)) == AtomHolds(m, e, a)
  {
    if a.Eq? {
      var us := AtomArgs(a);
      assert Vals(m, e, ts)[0] == Val(m, e, ts[0]) && Vals(m, e, us)[0] == Val(m, e, us[0]);
      assert Vals(m, e, ts)[1] == Val(m, e, ts[1]) && Vals(m, e, us)[1] == Val(m, e, us[1]);
    }
  }

  lemma WithLitHolds<D(!new)>(m: Structure<D>, e: Env<D>, c: Clause, i: nat, ts: seq<Term>)
    requires i < |c| && |ts| == |AtomArgs(c[i].atom)| && Vals(m, e, ts) == Vals(m, e, AtomArgs(c[i].atom))
    ensures ClauseHolds(m, e, WithLit(c, i, ts)) == ClauseHolds(m, e, c)
  {
    var c2 := WithLit(c, i, ts);
    WithArgsHolds(m, e, c[i].atom, ts);
    assert forall k :: 0 <= k < |c| ==> LiteralHolds(m, e, c2[k]) == LiteralHolds(m, e, c[k]);
  }

  /** A replayed clause is true exactly when the input is, in every structure in which the
      cited unit equalities are valid; fresh variables on right sides do no harm. */
  lemma {:induction false} ReplayEquivalent<D(!new)>(m: Structure<D>, e: Env<D>, rules: map<ClauseId, Rule>, c: Clause,
                                              steps: seq<Step>)
    requires Replay(rules, c, steps).Some?
    requires forall k :: 0 <= k < |steps| && steps[k].id in rules ==> RuleTrue(m, rules[steps[k].id])
    ensures ClauseHolds(m, e, Replay(rules, c, steps).value) == ClauseHolds(m, e, c)
    decreases |steps|
  {
    if steps != [] {
      var s := steps[0];
      var args := AtomArgs(c[s.lit].atom);
      var ts := ApplyAtArgs(rules[s.id], args, s.path).value;
      ApplyAtArgsVals(m, e, rules[s.id], args, s.path);
      WithLitHolds(m, e, c, s.lit, ts);
      forall k | 0 <= k < |steps[1..]| && steps[1..][k].id in rules ensures RuleTrue(m, rules[steps[1..][k].id]) {
        assert steps[1..][k] == steps[k + 1];
      }
      ReplayEquivalent(m, e, rules, WithLit(c, s.lit, ts), steps[1..]);
    }
  }
}
