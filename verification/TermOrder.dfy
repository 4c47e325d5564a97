/** Symbol configuration and the term notions shared by the two reduction orderings. */
module TermOrder {
  import opened Fol

  datatype Comparison = Greater | Less | Equal | Incomparable

  /** Precedence and weight tables with the code's fallbacks for unlisted symbols. */
  datatype SymbolConfig = SymbolConfig(precedence: seq<nat>, weights: seq<nat>, w0: nat) {
    function Prec(s: SymbolId): nat { if s < |precedence| then precedence[s] else s }

    function Weight(s: SymbolId): nat { if s < |weights| then weights[s] else w0 }

    /** What the tables say of two symbols: a listed symbol stands at its entry, an unlisted one
        at its own index. */
    predicate Above(f: SymbolId, g: SymbolId) {
      if f < |precedence| && g < |precedence| then precedence[f] > precedence[g]
      else if f < |precedence| then precedence[f] > g
      else if g < |precedence| then f > precedence[g]
      else f > g
    }

    /** `f` weighs `k` more than `g`; an unlisted symbol weighs as much as a variable. */
    predicate Heavier(f: SymbolId, g: SymbolId, k: nat) {
      if f < |weights| && g < |weights| then weights[f] == weights[g] + k
      else if f < |weights| then weights[f] == w0 + k
      else if g < |weights| then w0 == weights[g] + k
      else k == 0
    }

    /** Different symbols have different precedence. */
    ghost predicate Injective() { forall s, t :: Prec(s) == Prec(t) ==> s == t }
  }

  function TermSize(t: Term): (n: nat)
    ensures n >= 1
    decreases t
  {
    match t
    case Var(_) => 1
    case App(_, args) => 1 + TermsSize(args)
  }

  function TermsSize(ts: seq<Term>): (n: nat)
    ensures n >= |ts|
    decreases ts
  {
    if ts == [] then 0 else TermSize(ts[0]) + TermsSize(ts[1..])
  }

  lemma {:induction false} ArgSmaller(ts: seq<Term>, i: nat)
    requires i < |ts|
    ensures TermSize(ts[i]) <= TermsSize(ts)
  {
    if i > 0 { ArgSmaller(ts[1..], i - 1); }
  }

  /** Simultaneous substitution by a total map. */
  function Instance(sigma: VarId -> Term, t: Term): Term {
    match t
    case Var(v) => sigma(v)
    case App(f, args) => App(f, Instances(sigma, args))
  }

  function Instances(sigma: VarId -> Term, ts: seq<Term>): (r: seq<Term>)
    ensures |r| == |ts| && forall i :: 0 <= i < |ts| ==> r[i] == Instance(sigma, ts[i])
  {
    seq(|ts|, i requires 0 <= i < |ts| => Instance(sigma, ts[i]))
  }

  /** Every symbol of `t` is applied to as many arguments as `arity` says. */
  predicate FixedArity(t: Term, arity: SymbolId -> nat) {
    match t
    case Var(_) => true
    case App(f, args) => |args| == arity(f) && forall i :: 0 <= i < |args| ==> FixedArity(args[i], arity)
  }
}
