/** Demodulation as shipped: a negative memo, a deadline, a pass limit, and recorded steps. */
module Demodulation {
  import opened Wrappers
  import opened Deadlines
  import opened Fol
  import opened Matching
  import opened Extraction
  import opened Rewriting

  const MAX_MEMO_ENTRIES: nat := 400_000
  const U64_MAX: nat := 0xFFFF_FFFF_FFFF_FFFF
  const MAX_PASSES: nat := 100

  class DemodMemo {
    var entries: map<Term, nat>
    var generation: nat
    var lookups: nat
    var hits: nat
    var records: nat
    var evictions: nat

    /** Entries never come from the future, so a new generation has none. */
    ghost predicate Valid()
      reads this
    {
      && generation <= U64_MAX
      && |entries| <= MAX_MEMO_ENTRIES
      && forall t :: t in entries ==> entries[t] <= generation
    }

    /** Every entry of the current generation is irreducible at every subterm. */
    ghost predicate Sound(c: Context)
      reads this
    {
      forall t :: t in entries && entries[t] == generation ==> Irreducible(c, {}, t)
    }

    constructor ()
      ensures Valid() && entries == map[]
    {
      entries := map[];
      generation := 0;
      lookups := 0;
      hits := 0;
      records := 0;
      evictions := 0;
    }

    method IsIrreducible(t: Term) returns (hit: bool)
      modifies this`lookups, this`hits
      ensures hit == (t.Var? || (t in entries && entries[t] == generation))
      ensures lookups == old(lookups) + (if t.App? then 1 else 0)
      ensures hits == old(hits) + (if t.App? && hit then 1 else 0)
    {
      if t.Var? { return true; }
      lookups := lookups + 1;
      hit := t in entries && entries[t] == generation;
      if hit { hits := hits + 1; }
    }

    method RecordIrreducible(t: Term)
      requires Valid()
      modifies this`entries, this`records, this`evictions
      ensures Valid()
      ensures t.Var? ==> entries == old(entries)
      ensures t.App? ==>
        entries == (if |old(entries)| >= MAX_MEMO_ENTRIES then map[] else old(entries))[t := generation]
      ensures evictions == old(evictions) + (if t.App? && |old(entries)| >= MAX_MEMO_ENTRIES then 1 else 0)
    {
      if t.Var? { return; }
      if |entries| >= MAX_MEMO_ENTRIES {
        entries := map[];
        evictions := evictions + 1;
      }
      entries := entries[t := generation];
      records := records + 1;
    }

    /** No entry survives a change of the rule set, the wrap of the counter included. */
    method Invalidate(lhs: Term)
      requires Valid()
      modifies this`entries, this`generation
      ensures Valid()
      ensures lhs.App? ==> forall t :: t in entries ==> entries[t] != generation
      ensures lhs.Var? ==> entries == old(entries) && generation == old(generation)
    {
      if lhs.App? {
        if generation + 1 <= U64_MAX {
          generation := generation + 1;
        } else {
          entries := map[];
          generation := 0;
        }
      }
    }
  }

  /** `used` lists the cited rules once each. */
  ghost predicate Cites(used: seq<ClauseId>, steps: seq<Step>) {
    && (forall k :: 0 <= k < |steps| ==> steps[k].id in used)
    && (forall id :: id in used ==> exists k :: 0 <= k < |steps| && steps[k].id == id)
    && (forall i, j :: 0 <= i < j < |used| ==> used[i] != used[j])
  }

  lemma CitesStep(used: seq<ClauseId>, steps: seq<Step>, s: Step)
    requires Cites(used, steps)
    ensures Cites(if s.id in used then used else used + [s.id], steps + [s])
  {
    var used2, steps2 := if s.id in used then used else used + [s.id], steps + [s];
    assert steps2[|steps|] == s;
    forall id | id in used2 ensures exists k :: 0 <= k < |steps2| && steps2[k].id == id {
      if id in used {
        var k :| 0 <= k < |steps| && steps[k].id == id;
        assert steps2[k].id == id;
      }
    }
  }

  /** The arguments before `i` are walked and the others untouched. */
  ghost predicate OnCourse(c: Context, target: set<nat>, args: seq<Term>, i: nat, now: seq<Term>, trace: seq<Local>)
    requires i <= |args| == |now|
  {
    var rest := WalkArgs(c, target, args[i..], i);
    WalkArgs(c, target, args, 0) == Walked(now[..i] + rest.result, trace + rest.steps)
  }

  lemma OnCourseStart(c: Context, target: set<nat>, args: seq<Term>)
    ensures OnCourse(c, target, args, 0, args, [])
  {
    var w := WalkArgs(c, target, args, 0);
    assert args[0..] == args && args[..0] + w.result == w.result && [] + w.steps == w.steps;
  }

  lemma OnCourseStep(c: Context, target: set<nat>, args: seq<Term>, i: nat, now: seq<Term>, trace: seq<Local>)
    requires i < |args| == |now| && OnCourse(c, target, args, i, now, trace)
    ensures var w := Walk(c, target, args[i]);
      OnCourse(c, target, args, i + 1, now[i := w.result], trace + Under(i, w.steps))
  {
    var w := Walk(c, target, args[i]);
    var rest := WalkArgs(c, target, args[i + 1..], i + 1);
    assert args[i..][1..] == args[i + 1..] && args[i..][0] == args[i];
    assert now[..i] + ([w.result] + rest.result) == now[i := w.result][..i + 1] + rest.result;
    assert trace + (Under(i, w.steps) + rest.steps) == trace + Under(i, w.steps) + rest.steps;
  }

  lemma OnCourseEnd(c: Context, target: set<nat>, args: seq<Term>, now: seq<Term>, trace: seq<Local>)
    requires |now| == |args| && OnCourse(c, target, args, |args|, now, trace)
    ensures WalkArgs(c, target, args, 0) == Walked(now, trace)
  {
    assert args[|args|..] == [] && now[..|args|] + [] == now && trace + [] == trace;
  }

  lemma ReplayStep(rules: map<ClauseId, Rule>, args: seq<Term>, now: seq<Term>, trace: seq<Local>, i: nat,
                   ls: seq<Local>, u: Term)
    requires i < |args| == |now| && now[i] == args[i]
    requires ReplayArgs(rules, args, trace) == Some(now) && ReplayTerm(rules, args[i], ls) == Some(u)
    ensures ReplayArgs(rules, args, trace + Under(i, ls)) == Some(now[i := u])
  {
    ReplayArgsAppend(rules, args, trace, Under(i, ls));
    ReplayUnder(rules, now, i, ls);
  }

  lemma RecordStep(before: seq<Step>, trace: seq<Local>, i: nat, ls: seq<Local>, lit: nat, prefix: seq<nat>)
    ensures before + Recorded(trace, lit, prefix) + Recorded(ls, lit, prefix + [i]) ==
      before + Recorded(trace + Under(i, ls), lit, prefix)
  {
    RecordedAppend(trace, Under(i, ls), lit, prefix);
    RecordedUnder(i, ls, lit, prefix);
  }

  /** The loop over arguments: the trace leads from `args` to `now` and is recorded as `pushed`,
      later arguments are as they were, and unless `cut` the walk is on course. */
  ghost predicate Progress(c: Context, target: set<nat>, args: seq<Term>, i: nat, now: seq<Term>, trace: seq<Local>,
                           cut: bool)
  {
    && i <= |args| == |now|
    && (forall k :: i <= k < |now| ==> now[k] == args[k])
    && ReplayArgs(c.rules, args, trace) == Some(now)
    && (!cut ==> OnCourse(c, target, args, i, now, trace))
  }

  lemma ProgressStart(c: Context, target: set<nat>, args: seq<Term>, cut: bool)
    ensures Progress(c, target, args, 0, args, [], cut)
  {
    OnCourseStart(c, target, args);
  }

  lemma ProgressStep(c: Context, target: set<nat>, args: seq<Term>, i: nat, now: seq<Term>, trace: seq<Local>,
                     cut: bool, below: seq<Local>, u: Term, cut2: bool)
    requires i < |args| && Progress(c, target, args, i, now, trace, cut)
    requires ReplayTerm(c.rules, args[i], below) == Some(u)
    requires !cut2 ==> !cut && Walk(c, target, args[i]) == Walked(u, below)
    ensures |now| == |args| && Progress(c, target, args, i + 1, now[i := u], trace + Under(i, below), cut2)
    ensures (trace + Under(i, below) != []) == (trace != [] || below != [])
  {
    ReplayStep(c.rules, args, now, trace, i, below, u);
    UnderEmpty(i, below);
    if !cut2 { OnCourseStep(c, target, args, i, now, trace); }
  }

  lemma ProgressEnd(c: Context, target: set<nat>, args: seq<Term>, now: seq<Term>, trace: seq<Local>, cut: bool)
    requires Progress(c, target, args, |args|, now, trace, cut)
    ensures !cut ==> WalkArgs(c, target, args, 0) == Walked(now, trace)
  {
    if !cut { OnCourseEnd(c, target, args, now, trace); }
  }

  // ----- the pass loop

  ghost predicate PassProgress(c: Context, target: set<nat>, lits: Clause, i: nat, now: Clause, pushed: seq<Step>,
                               cut: bool)
  {
    && i <= |lits| == |now|
    && Replay(c.rules, lits, pushed) == Some(now)
    && (!cut ==>
      var rest := PassFrom(c, target, now, i);
      PassFrom(c, target, lits, 0) == Rewriting.Passed(rest.result, pushed + rest.steps))
  }

  lemma PassStart(c: Context, target: set<nat>, lits: Clause)
    ensures PassProgress(c, target, lits, 0, lits, [], false)
  {
    assert [] + PassFrom(c, target, lits, 0).steps == PassFrom(c, target, lits, 0).steps;
  }

  lemma PassStep(c: Context, target: set<nat>, lits: Clause, i: nat, now: Clause, pushed: seq<Step>,
                 cut: bool, trace: seq<Local>, args: seq<Term>, cut2: bool)
    requires PassProgress(c, target, lits, i, now, pushed, cut) && i < |now|
    requires ReplayArgs(c.rules, AtomArgs(now[i].atom), trace) == Some(args)
    requires !cut2 ==> !cut && WalkArgs(c, target, AtomArgs(now[i].atom), 0) == Walked(args, trace)
    ensures |args| == |AtomArgs(now[i].atom)|
    ensures PassProgress(c, target, lits, i + 1, WithLit(now, i, args), pushed + Recorded(trace, i, []), cut2)
  {
    ReplayAppend(c.rules, lits, pushed, Recorded(trace, i, []));
    ReplayLit(c.rules, now, i, trace);
    if !cut2 {
      ConcatAssoc(pushed, Recorded(trace, i, []), PassFrom(c, target, WithLit(now, i, args), i + 1).steps);
    }
  }

  lemma PassEnd(c: Context, target: set<nat>, lits: Clause, now: Clause, pushed: seq<Step>, cut: bool)
    requires PassProgress(c, target, lits, |lits|, now, pushed, cut)
    ensures !cut ==> PassFrom(c, target, lits, 0) == Rewriting.Passed(now, pushed)
  {
    assert pushed + [] == pushed;
  }

  /** With `left` of `limit` passes to go. */
  ghost predicate RunProgress(c: Context, target: set<nat>, lits: Clause, limit: nat, left: nat, now: Clause,
                              steps: seq<Step>, cut: bool)
  {
    && Replay(c.rules, lits, steps) == Some(now)
    && (!cut ==>
      var rest := Passes(c, target, now, left);
      Passes(c, target, lits, limit) == Rewriting.Passed(rest.result, steps + rest.steps))
  }

  lemma RunStart(c: Context, target: set<nat>, lits: Clause, limit: nat)
    ensures RunProgress(c, target, lits, limit, limit, lits, [], false)
  {
    assert [] + Passes(c, target, lits, limit).steps == Passes(c, target, lits, limit).steps;
  }

  /** After one more pass the run is on course, and if the pass made no step, at its end. */
  lemma RunStep(c: Context, target: set<nat>, lits: Clause, limit: nat, left: nat, was: Clause, before: seq<Step>,
                cut: bool,
                now: Clause, pushed: seq<Step>, cut2: bool)
    requires c.WellFormed() && left > 0 && RunProgress(c, target, lits, limit, left, was, before, cut)
    requires Replay(c.rules, was, pushed) == Some(now)
    requires !cut2 ==> !cut && PassFrom(c, target, was, 0) == Rewriting.Passed(now, pushed)
    ensures RunProgress(c, target, lits, limit, if pushed == [] then 0 else left - 1, now, before + pushed, cut2)
  {
    ReplayAppend(c.rules, lits, before, pushed);
    if !cut2 {
      if pushed == [] {
        PassIrreducible(c, target, was, 0);
        assert before + [] == before;
      } else {
        ConcatAssoc(before, pushed, Passes(c, target, now, left - 1).steps);
      }
    }
  }

  lemma RunEnd(c: Context, target: set<nat>, lits: Clause, limit: nat, now: Clause, steps: seq<Step>, cut: bool)
    requires RunProgress(c, target, lits, limit, 0, now, steps, cut)
    ensures Replay(c.rules, lits, steps) == Some(now)
    ensures !cut ==> Passes(c, target, lits, limit) == Rewriting.Passed(now, steps)
  {
    assert steps + [] == steps;
  }

  /** One call of `demodulate_id_until`: the buffers its helpers push to. */
  class Rewriter {
    const c: Context
    const target: set<nat>
    const memo: DemodMemo?
    const deadline: Deadline
    const maxPasses: nat
    var path: seq<nat>
    var used: seq<ClauseId>
    var steps: seq<Step>

    ghost predicate Valid()
      reads this`used, this`steps, memo
    {
      && c.WellFormed()
      && Cites(used, steps)
      && Admitted(c, target, steps)
      && (memo != null ==> target == {} && memo.Valid() && memo.Sound(c))
    }

    /** A split clause runs unmemoised. */
    constructor (c: Context, target: set<nat>, memo: DemodMemo?, deadline: Deadline)
      requires c.WellFormed() && (memo != null ==> memo.Valid() && memo.Sound(c))
      ensures Valid() && steps == [] && used == []
      ensures this.c == c && this.target == target && this.deadline == deadline
      ensures this.memo == if target == {} then memo else null
      ensures maxPasses == MAX_PASSES
    {
      this.c := c;
      this.target := target;
      this.memo := if target == {} then memo else null;
      this.deadline := deadline;
      this.maxPasses := MAX_PASSES;
      path := [];
      used := [];
      steps := [];
    }

    /** The loop over the retrieved rules. */
    method FindRule(t: Term) returns (o: Option<ClauseId>)
      requires c.WellFormed()
      ensures o == Root(c, target, t)
      ensures o.Some? ==>
        exists k :: 0 <= k < |c.lookup(t)| && c.lookup(t)[k] == o.value && FirstAt(c, target, c.lookup(t), k, t)
      ensures o.None? ==> forall id :: id in c.rules && id in c.store && c.store[id] <= target ==>
        Match(c.rules[id].lhs, t, map[]).None?
    {
      NoRootRule(c, target, t);
      FirstRuleIs(c, target, c.lookup(t), t);
      var ids := c.lookup(t);
      assert ids[0..] == ids;
      for i := 0 to |ids|
        invariant FirstRule(c, target, ids[i..], t) == Root(c, target, t)
      {
        assert ids[i..][1..] == ids[i + 1..];
        var id := ids[i];
        assert id in c.rules;
        if id in c.store && c.store[id] <= target {
          var sigma := MatchTerm(c.rules[id].lhs, t);
          if sigma.Some? { return Some(id); }
        }
      }
      assert ids[|ids|..] == [];
      return None;
    }

    /** `rewrite_term_id_until`. Whatever interrupts it, the steps it recorded lead from `t` to
        `r`; uninterrupted, it does what the unmemoised walk does. */
    method RewriteTerm(t: Term, lit: nat) returns (r: Term, changed: bool, ghost trace: seq<Local>)
      requires Valid()
      modifies this`path, this`used, this`steps, memo, deadline
      ensures Valid()
      ensures path == old(path) && old(deadline.ticks) <= deadline.ticks
      ensures steps == old(steps) + Recorded(trace, lit, path)
      ensures ReplayTerm(c.rules, t, trace) == Some(r)
      ensures changed <==> trace != []
      ensures !deadline.Cut() ==> Walk(c, target, t) == Walked(r, trace)
      decreases t, 1
    {
      trace := [];
      var late := deadline.Passed();
      if late { return t, false, []; }
      if memo != null {
        var known := memo.IsIrreducible(t);
        if known {
          if t.Var? { VarIrreducible(c, target, t.v); }
          WalkIrreducible(c, target, t);
          return t, false, [];
        }
      }
      var rule := FindRule(t);
      if rule.Some? {
        r := ApplyRule(rule.value, t, lit);
        return r, true, [Local(rule.value, [])];
      }
      if t.App? {
        r, changed, trace := RewriteArgs(t, lit);
        if changed { return; }
      }
      Remember(t);
      return t, false, [];
    }

    /** Before the deadline, a term without redex is entered in the memo. */
    method Remember(t: Term)
      requires Valid() && (!deadline.Cut() ==> Walk(c, target, t).steps == [])
      modifies memo, deadline
      ensures Valid() && old(deadline.ticks) <= deadline.ticks
    {
      var late := deadline.Passed();
      if !late && memo != null {
        WalkIrreducible(c, target, t);
        memo.RecordIrreducible(t);
      }
    }

    method ApplyRule(id: ClauseId, t: Term, lit: nat) returns (r: Term)
      requires Valid() && c.Usable(id, target) && Rewriting.RewriteRoot(c.rules[id], t).Some?
      modifies this`used, this`steps
      ensures Valid()
      ensures steps == old(steps) + Recorded([Local(id, [])], lit, path)
      ensures ReplayTerm(c.rules, t, [Local(id, [])]) == Some(r)
      ensures r == Rewriting.RewriteRoot(c.rules[id], t).value
    {
      var sigma := MatchTerm(c.rules[id].lhs, t);
      r := ApplyMatch(sigma.value, c.rules[id].rhs);
      CitesStep(used, steps, Step(id, lit, path));
      if id !in used { used := used + [id]; }
      steps := steps + [Step(id, lit, path)];
      assert path + [] == path && [Local(id, [])][1..] == [];
    }

    method RewriteChild(t: Term, i: nat, lit: nat) returns (r: Term, changed: bool, ghost trace: seq<Local>)
      requires Valid()
      modifies this`path, this`used, this`steps, memo, deadline
      ensures Valid()
      ensures path == old(path) && old(deadline.ticks) <= deadline.ticks
      ensures steps == old(steps) + Recorded(trace, lit, path + [i])
      ensures ReplayTerm(c.rules, t, trace) == Some(r)
      ensures changed <==> trace != []
      ensures !deadline.Cut() ==> Walk(c, target, t) == Walked(r, trace)
      decreases t, 2
    {
      path := path + [i];
      r, changed, trace := RewriteTerm(t, lit);
      path := path[..|path| - 1];
    }

    /** The descent into the arguments of an application whose root no rule matches. */
    method RewriteArgs(t: Term, lit: nat) returns (r: Term, changed: bool, ghost trace: seq<Local>)
      requires Valid() && t.App?
      modifies this`path, this`used, this`steps, memo, deadline
      ensures Valid()
      ensures path == old(path) && old(deadline.ticks) <= deadline.ticks
      ensures steps == old(steps) + Recorded(trace, lit, path)
      ensures ReplayTerm(c.rules, t, trace) == Some(r)
      ensures changed <==> trace != []
      ensures !deadline.Cut() ==> r.App? && r.sym == t.sym && WalkArgs(c, target, t.args, 0) == Walked(r.args, trace)
      decreases t, 0
    {
      var now, i := t.args, 0;
      trace := [];
      changed := false;
      ProgressStart(c, target, t.args, deadline.Cut());
      while i < |t.args|
        invariant Progress(c, target, t.args, i, now, trace, deadline.Cut())
        invariant Valid() && path == old(path) && old(deadline.ticks) <= deadline.ticks
        invariant steps == old(steps) + Recorded(trace, lit, path)
        invariant changed <==> trace != []
      {
        ghost var cut := deadline.Cut();
        var late := deadline.Passed();
        if late { break; }
        var u, ch, below := RewriteChild(t.args[i], i, lit);
        ProgressStep(c, target, t.args, i, now, trace, cut, below, u, deadline.Cut());
        RecordStep(old(steps), trace, i, below, lit, path);
        now, trace, changed, i := now[i := u], trace + Under(i, below), changed || ch, i + 1;
      }
      ReplayApp(c.rules, t.sym, t.args, trace);
      if i == |t.args| { ProgressEnd(c, target, t.args, now, trace, deadline.Cut()); }
      r := App(t.sym, now);
    }

    /** The same for the arguments of an atom; here only the calls watch the deadline. */
    method RewriteAtomArgs(args: seq<Term>, lit: nat) returns (now: seq<Term>, changed: bool, ghost trace: seq<Local>)
      requires Valid()
      modifies this`path, this`used, this`steps, memo, deadline
      ensures Valid() && old(deadline.ticks) <= deadline.ticks
      ensures steps == old(steps) + Recorded(trace, lit, [])
      ensures ReplayArgs(c.rules, args, trace) == Some(now)
      ensures !deadline.Cut() ==> WalkArgs(c, target, args, 0) == Walked(now, trace)
      ensures changed <==> trace != []
    {
      now, changed, trace := args, false, [];
      path := [];
      ProgressStart(c, target, args, deadline.Cut());
      for i := 0 to |args|
        invariant Progress(c, target, args, i, now, trace, deadline.Cut())
        invariant Valid() && path == [] && old(deadline.ticks) <= deadline.ticks
        invariant steps == old(steps) + Recorded(trace, lit, path)
        invariant changed <==> trace != []
      {
        ghost var cut := deadline.Cut();
        var u, ch, below := RewriteChild(args[i], i, lit);
        ProgressStep(c, target, args, i, now, trace, cut, below, u, deadline.Cut());
        RecordStep(old(steps), trace, i, below, lit, path);
        now, trace, changed := now[i := u], trace + Under(i, below), changed || ch;
      }
      ProgressEnd(c, target, args, now, trace, deadline.Cut());
    }

    /** `rewrite_literal_id_until`. */
    method RewriteLiteral(l: Literal, lit: nat) returns (r: Literal, changed: bool, ghost trace: seq<Local>)
      requires Valid()
      modifies this`path, this`used, this`steps, memo, deadline
      ensures Valid() && old(deadline.ticks) <= deadline.ticks
      ensures steps == old(steps) + Recorded(trace, lit, [])
      ensures |AtomArgs(r.atom)| == |AtomArgs(l.atom)| && r == Literal(l.positive, WithArgs(l.atom, AtomArgs(r.atom)))
      ensures ReplayArgs(c.rules, AtomArgs(l.atom), trace) == Some(AtomArgs(r.atom))
      ensures !deadline.Cut() ==> WalkArgs(c, target, AtomArgs(l.atom), 0) == Walked(AtomArgs(r.atom), trace)
      ensures changed <==> trace != []
    {
      var now;
      now, changed, trace := RewriteAtomArgs(AtomArgs(l.atom), lit);
      assert AtomArgs(WithArgs(l.atom, now)) == now;
      r := if changed then Literal(l.positive, WithArgs(l.atom, now)) else l;
    }

    /** One pass over the literals; every literal is preceded by a look at the clock. */
    method Pass(lits: Clause) returns (now: Clause, changed: bool, ghost pushed: seq<Step>)
      requires Valid()
      modifies this`path, this`used, this`steps, memo, deadline
      ensures Valid() && old(deadline.ticks) <= deadline.ticks
      ensures steps == old(steps) + pushed
      ensures Replay(c.rules, lits, pushed) == Some(now)
      ensures changed <==> pushed != []
      ensures !deadline.Cut() ==> PassFrom(c, target, lits, 0) == Rewriting.Passed(now, pushed)
    {
      now, changed, pushed := lits, false, [];
      ghost var before := steps;
      assert before + pushed == before;
      PassStart(c, target, lits);
      var i := 0;
      while i < |lits|
        invariant PassProgress(c, target, lits, i, now, pushed, deadline.Cut())
        invariant Valid() && old(deadline.ticks) <= deadline.ticks
        invariant steps == before + pushed
        invariant changed <==> pushed != []
      {
        ghost var cut := deadline.Cut();
        var late := deadline.Passed();
        if late { break; }
        var l, ch, trace := RewriteLiteral(now[i], i);
        PassStep(c, target, lits, i, now, pushed, cut, trace, AtomArgs(l.atom), deadline.Cut());
        ConcatAssoc(before, pushed, Recorded(trace, i, []));
        now, changed, i := now[i := l], changed || ch, i + 1;
        pushed := pushed + Recorded(trace, i - 1, []);
      }
      if i == |lits| { PassEnd(c, target, lits, now, pushed, deadline.Cut()); }
    }

    /** The fixpoint loop of `demodulate_id_until`; `None` when no rewrite was applied. */
    method Run(lits: Clause) returns (r: Option<Clause>)
      requires Valid() && steps == []
      modifies this`path, this`used, this`steps, memo, deadline
      ensures Valid()
      ensures r.None? <==> steps == []
      ensures Replay(c.rules, lits, steps) == Some(r.GetOr(lits))
      ensures !deadline.Cut() ==> Passes(c, target, lits, maxPasses) == Rewriting.Passed(r.GetOr(lits), steps)
    {
      var now, changed, passes := lits, false, 0;
      ghost var left := maxPasses;
      RunStart(c, target, lits, maxPasses);
      while true
        invariant passes <= maxPasses && left == maxPasses - passes && Valid()
        invariant RunProgress(c, target, lits, maxPasses, left, now, steps, deadline.Cut())
        invariant changed <==> steps != []
        decreases maxPasses - passes
      {
        if passes >= maxPasses { break; }
        ghost var before, cut := steps, deadline.Cut();
        var late := deadline.Passed();
        if late { left := 0; break; }
        passes := passes + 1;
        var next, changedThisPass, pushed := Pass(now);
        RunStep(c, target, lits, maxPasses, left, now, before, cut, next, pushed, deadline.Cut());
        left := if changedThisPass then left - 1 else 0;
        now, changed := next, changed || changedThisPass;
        if !changedThisPass { break; }
      }
      RunEnd(c, target, lits, maxPasses, now, steps, deadline.Cut());
      r := if changed then Some(now) else None;
    }
  }

  datatype Derived = Derived(literals: Clause, parents: seq<ClauseId>, steps: seq<Step>)

  /** The rule set the search keeps, with the memo that belongs to it. Every change of the rule
      set is followed by an invalidation, so `Valid` holds over every history of calls. */
  class RuleBase {
    var c: Context
    const memo: DemodMemo

    ghost predicate Valid()
      reads this, memo
    {
      c.WellFormed() && memo.Valid() && memo.Sound(c)
    }

    constructor ()
      ensures Valid() && c.rules == map[] && c.store == map[] && fresh(memo)
    {
      c := Context(map[], t => [], map[]);
      memo := new DemodMemo();
    }

    /** A new unit equality is stored, indexed under its greater side, and the memo invalidated;
        `lookup` is the retrieval function of the index after the insertion. */
    method Insert(id: ClauseId, r: Rule, splits: set<nat>, lookup: Term -> seq<ClauseId>)
      requires Valid()
      requires Context(c.rules[id := r], lookup, c.store[id := splits]).WellFormed()
      modifies this, memo
      ensures Valid()
      ensures c == Context(old(c).rules[id := r], lookup, old(c).store[id := splits])
    {
      c := Context(c.rules[id := r], lookup, c.store[id := splits]);
      assert c.rules[id] == r;
      memo.Invalidate(r.lhs);
    }

    method Remove(id: ClauseId, lookup: Term -> seq<ClauseId>)
      requires Valid() && id in c.rules
      requires Context(c.rules - {id}, lookup, c.store).WellFormed()
      modifies this, memo
      ensures Valid()
      ensures c == Context(old(c).rules - {id}, lookup, old(c).store)
    {
      var lhs := c.rules[id].lhs;
      c := Context(c.rules - {id}, lookup, c.store);
      memo.Invalidate(lhs);
    }

    /** Registering a clause that is no rule leaves every memoised answer right. */
    method Register(id: ClauseId, splits: set<nat>)
      requires Valid() && id !in c.rules
      modifies this
      ensures Valid() && c == old(c).(store := old(c).store[id := splits])
    {
      ghost var before := c;
      c := c.(store := c.store[id := splits]);
      forall t | Irreducible(before, {}, t) ensures Irreducible(c, {}, t) {
        forall k, path | c.Usable(k, {}) ensures ApplyAt(c.rules[k], t, path).None? {
          assert before.Usable(k, {});
        }
      }
    }

    /** `demodulate_id_until`, memoised or not. The recorded steps replay from the clause to the
        emitted one however the call ended; without interruption both are those of the
        unmemoised walk, whatever the memo went through before. */
    method Demodulate(id: ClauseId, lits: Clause, target: set<nat>, useMemo: bool, deadline: Deadline)
      returns (d: Option<Derived>)
      requires Valid()
      modifies memo, deadline
      ensures Valid()
      ensures d.Some? ==>
        && d.value.steps != [] && Admitted(c, target, d.value.steps)
        && Replay(c.rules, lits, d.value.steps) == Some(d.value.literals)
        && d.value.parents != [] && d.value.parents[0] == id
        && (forall p :: p in d.value.parents <==>
          p == id || exists k :: 0 <= k < |d.value.steps| && d.value.steps[k].id == p)
      ensures !deadline.Cut() ==>
        var p := Passes(c, target, lits, MAX_PASSES);
        if p.steps == [] then d.None? else d.Some? && d.value.literals == p.result && d.value.steps == p.steps
      ensures d.Some? ==> SameUnderSplits(c, target, lits, d.value.literals)
      ensures !deadline.Cut() && (d.None? || |d.value.steps| < 100) ==>
        FullyReduced(c, target, if d.Some? then d.value.literals else lits)
      ensures !deadline.Cut() && Productive(c, target, lits, MAX_PASSES) < MAX_PASSES ==>
        FullyReduced(c, target, if d.Some? then d.value.literals else lits)
    {
      var w := new Rewriter(c, target, if useMemo then memo else null, deadline);
      var r := w.Run(lits);
      if !deadline.Cut() && (Productive(c, target, lits, MAX_PASSES) < MAX_PASSES || |w.steps| < MAX_PASSES) {
        PassesReduce(c, target, lits, MAX_PASSES);
      }
      if r.None? { return None; }
      AdmittedSame(c, target, lits, w.steps);
      var others := [];
      for i := 0 to |w.used|
        invariant forall p :: p in others <==> p in w.used[..i] && p != id
      {
        assert w.used[..i + 1] == w.used[..i] + [w.used[i]];
        if w.used[i] != id { others := others + [w.used[i]]; }
      }
      assert w.used[..|w.used|] == w.used;
      d := Some(Derived(r.value, [id] + others, w.steps));
    }
  }
}
