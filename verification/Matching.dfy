/** One-way matching: binding pattern variables so that the pattern becomes the target. */
module Matching {
  import opened Wrappers
  import opened Fol
  import opened TermOrder

  type Bindings = map<VarId, Term>

  /** The total substitution of a binding map: unbound variables stay. */
  function Sub(s: Bindings): VarId -> Term { (v: VarId) => if v in s then s[v] else Var(v) }

  /** `apply_matching_subst_id`: bindings are not applied to their own images. */
  function ApplyMatch(s: Bindings, t: Term): Term { Instance(Sub(s), t) }

  function Match(p: Term, t: Term, s: Bindings): Option<Bindings>
    decreases p, 0
  {
    match p
    case Var(v) => if v in s then (if s[v] == t then Some(s) else None) else Some(s[v := t])
    case App(f, args) =>
      if t.App? && f == t.sym && |args| == |t.args| then MatchAll(args, t.args, s) else None
  }

  function MatchAll(ps: seq<Term>, ts: seq<Term>, s: Bindings): Option<Bindings>
    requires |ps| == |ts|
    decreases ps, 1
  {
    if ps == [] then Some(s) else
    match Match(ps[0], ts[0], s)
    case None => None
    case Some(s1) => MatchAll(ps[1..], ts[1..], s1)
  }

  function ListVars(ts: seq<Term>): set<VarId> { set i, x | 0 <= i < |ts| && x in TermVars(ts[i]) :: x }

  lemma ListVarsCons(ts: seq<Term>)
    requires ts != []
    ensures ListVars(ts) == TermVars(ts[0]) + ListVars(ts[1..])
  {
    assert ts == [ts[0]] + ts[1..];
  }

  predicate Extends(s: Bindings, s2: Bindings) { forall v :: v in s ==> v in s2 && s2[v] == s[v] }

  /** Only the variables of a term matter to its instance. */
  lemma {:induction false} InstanceAgree(f: VarId -> Term, g: VarId -> Term, t: Term)
    requires forall v :: v in TermVars(t) ==> f(v) == g(v)
    ensures Instance(f, t) == Instance(g, t)
    decreases t
  {
    if t.App? {
      forall i | 0 <= i < |t.args| ensures Instance(f, t.args[i]) == Instance(g, t.args[i]) {
        InstanceAgree(f, g, t.args[i]);
      }
      assert Instances(f, t.args) == Instances(g, t.args);
    }
  }

  // ----- soundness: the bindings found turn the pattern into the target

  lemma {:induction false} MatchSound(p: Term, t: Term, s: Bindings)
    requires Match(p, t, s).Some?
    ensures var r := Match(p, t, s).value;
      Extends(s, r) && r.Keys == s.Keys + TermVars(p) && ApplyMatch(r, p) == t
    decreases p, 0
  {
    if p.App? {
      MatchAllSound(p.args, t.args, s);
      var r := Match(p, t, s).value;
      assert ListVars(p.args) == TermVars(p);
      assert Instances(Sub(r), p.args) == t.args;
    }
  }

  lemma {:induction false} MatchAllSound(ps: seq<Term>, ts: seq<Term>, s: Bindings)
    requires |ps| == |ts| && MatchAll(ps, ts, s).Some?
    ensures var r := MatchAll(ps, ts, s).value;
      Extends(s, r) && r.Keys == s.Keys + ListVars(ps) && forall i :: 0 <= i < |ps| ==> ApplyMatch(r, ps[i]) == ts[i]
    decreases ps, 1
  {
    if ps != [] {
      var s1 := Match(ps[0], ts[0], s).value;
      var r := MatchAll(ps, ts, s).value;
      MatchSound(ps[0], ts[0], s);
      MatchAllSound(ps[1..], ts[1..], s1);
      ListVarsCons(ps);
      InstanceAgree(Sub(s1), Sub(r), ps[0]);
      forall i | 0 <= i < |ps| ensures ApplyMatch(r, ps[i]) == ts[i] {
        if i > 0 { assert ps[i] == ps[1..][i - 1] && ts[i] == ts[1..][i - 1]; }
      }
    }
  }

  // ----- completeness: matching fails only if no substitution works

  ghost predicate Agrees(f: VarId -> Term, s: Bindings) { forall v :: v in s ==> f(v) == s[v] }

  lemma {:induction false} MatchComplete(p: Term, t: Term, s: Bindings, f: VarId -> Term)
    requires Agrees(f, s) && Instance(f, p) == t
    ensures Match(p, t, s).Some? && Agrees(f, Match(p, t, s).value)
    decreases p, 0
  {
    if p.App? {
      assert t.args == Instances(f, p.args);
      MatchAllComplete(p.args, t.args, s, f);
    }
  }

  lemma {:induction false} MatchAllComplete(ps: seq<Term>, ts: seq<Term>, s: Bindings, f: VarId -> Term)
    requires |ps| == |ts| && Agrees(f, s) && forall i :: 0 <= i < |ps| ==> Instance(f, ps[i]) == ts[i]
    ensures MatchAll(ps, ts, s).Some? && Agrees(f, MatchAll(ps, ts, s).value)
    decreases ps, 1
  {
    if ps != [] {
      MatchComplete(ps[0], ts[0], s, f);
      MatchAllComplete(ps[1..], ts[1..], Match(ps[0], ts[0], s).value, f);
    }
  }

  /** `match_term_id` answers exactly when the target is an instance of the pattern, and then
      with a substitution that binds the pattern's variables and no others. */
  lemma MatchExact(p: Term, t: Term)
    ensures Match(p, t, map[]).Some? <==> exists f: VarId -> Term :: Instance(f, p) == t
    ensures Match(p, t, map[]).Some? ==>
      var r := Match(p, t, map[]).value; r.Keys == TermVars(p) && ApplyMatch(r, p) == t
  {
    if Match(p, t, map[]).Some? { MatchSound(p, t, map[]); }
    if f: VarId -> Term :| Instance(f, p) == t { MatchComplete(p, t, map[], f); }
  }

  /** The mutable substitution of the source, threaded through the recursion. */
  class IdSubstitution {
    var bound: Bindings

    constructor ()
      ensures bound == map[]
    {
      bound := map[];
    }

    /** `match_rec_id`: on failure the bindings made so far stay, and the caller discards them. */
    method MatchRec(p: Term, t: Term) returns (ok: bool)
      modifies this
      ensures ok == Match(p, t, old(bound)).Some?
      ensures ok ==> bound == Match(p, t, old(bound)).value
      decreases p
    {
      match p
      case Var(v) =>
        if v in bound { return bound[v] == t; }
        bound := bound[v := t];
        return true;
      case App(f, args) =>
        if t.Var? || f != t.sym || |args| != |t.args| { return false; }
        ghost var s := bound;
        assert args[0..] == args && t.args[0..] == t.args;
        for i := 0 to |args|
          invariant MatchAll(args, t.args, s) == MatchAll(args[i..], t.args[i..], bound)
        {
          assert args[i..][1..] == args[i + 1..] && t.args[i..][1..] == t.args[i + 1..];
          var done := MatchRec(args[i], t.args[i]);
          if !done { return false; }
        }
        assert args[|args|..] == [];
        return true;
    }
  }

  /** `match_term_id`. */
  method MatchTerm(p: Term, t: Term) returns (r: Option<Bindings>)
    ensures r == Match(p, t, map[])
    ensures r.Some? <==> exists f: VarId -> Term :: Instance(f, p) == t
  {
    var s := new IdSubstitution();
    var ok := s.MatchRec(p, t);
    MatchExact(p, t);
    r := if ok then Some(s.bound) else None;
  }
}
