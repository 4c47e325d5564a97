/** Lowering of first-order TPTP formulas: scoping of variable names, fresh binder ids, and the
    restoration of the name map after a quantifier. */
module Lowering {
  import opened Wrappers
  import opened Fol
  import opened NormalForm

  /** `Apply` carries the text that is interned for the function symbol. */
  datatype SrcTerm = Variable(name: string) | Apply(word: string, args: seq<SrcTerm>)

  datatype Connective = CAnd | COr | CImpl | CRevImpl | CIff | CXor | CNor | CNand

  datatype Src =
    | Atomic(word: string, args: seq<SrcTerm>)
    | Verum
    | Falsum
    | Negation(inner: Src)
    | Quantified(universal: bool, variables: seq<string>, body: Src)
    | Binary(left: Src, connective: Connective, right: Src)
    | Equality(lhs: SrcTerm, rhs: SrcTerm)
    | Inequality(lhs: SrcTerm, rhs: SrcTerm)
    | Parens(inner: Src)

  type VarMap = map<string, VarId>

  /** The symbol table: a name is interned to the same id whenever it is met. */
  type Symbols = string -> SymbolId

  // ----- what the source formula means

  type Names<!D> = string -> D

  ghost function SrcVal<D>(m: Structure<D>, sym: Symbols, rho: Names<D>, t: SrcTerm): D
    decreases t
  {
    match t
    case Variable(x) => rho(x)
    case Apply(w, args) => m.fun(sym(w), SrcVals(m, sym, rho, args))
  }

  ghost function SrcVals<D>(m: Structure<D>, sym: Symbols, rho: Names<D>, ts: seq<SrcTerm>): seq<D>
    decreases ts
  {
    seq(|ts|, i requires 0 <= i < |ts| => SrcVal(m, sym, rho, ts[i]))
  }

  ghost function Named<D>(rho: Names<D>, x: string, d: D): Names<D> { (y: string) => if y == x then d else rho(y) }

  ghost predicate Means(c: Connective, l: bool, r: bool) {
    match c
    case CAnd => l && r
    case COr => l || r
    case CImpl => l ==> r
    case CRevImpl => r ==> l
    case CIff => l == r
    case CXor => l != r
    case CNor => !(l || r)
    case CNand => !(l && r)
  }

  ghost predicate SrcHolds<D(!new)>(m: Structure<D>, sym: Symbols, rho: Names<D>, f: Src)
    decreases f, 0
  {
    match f
    case Atomic(w, args) => m.pred(sym(w), SrcVals(m, sym, rho, args))
    case Verum => true
    case Falsum => false
    case Negation(g) => !SrcHolds(m, sym, rho, g)
    case Quantified(u, xs, b) => QuantHolds(m, sym, rho, u, xs, b)
    case Binary(l, c, r) => Means(c, SrcHolds(m, sym, rho, l), SrcHolds(m, sym, rho, r))
    case Equality(l, r) => SrcVal(m, sym, rho, l) == SrcVal(m, sym, rho, r)
    case Inequality(l, r) => SrcVal(m, sym, rho, l) != SrcVal(m, sym, rho, r)
    case Parens(g) => SrcHolds(m, sym, rho, g)
  }

  /** The names of a quantifier list are bound one after the other. */
  ghost predicate QuantHolds<D(!new)>(m: Structure<D>, sym: Symbols, rho: Names<D>, universal: bool, xs: seq<string>,
                               b: Src)
    decreases b, 1 + |xs|
  {
    if xs == [] then SrcHolds(m, sym, rho, b)
    else if universal then forall d: D :: QuantHolds(m, sym, Named(rho, xs[0], d), universal, xs[1..], b)
    else exists d: D :: QuantHolds(m, sym, Named(rho, xs[0], d), universal, xs[1..], b)
  }

  // ----- lowering as a function of the context

  datatype Ctx = Ctx(vars: VarMap, next: VarId)

  function LowerTerm(sym: Symbols, t: SrcTerm, c: Ctx): (Term, Ctx)
    decreases t
  {
    match t
    case Variable(x) => if x in c.vars then (Var(c.vars[x]), c) else (Var(c.next), Ctx(c.vars[x := c.next], c.next + 1))
    case Apply(w, args) => var r := LowerTerms(sym, args, c); (App(sym(w), r.0), r.1)
  }

  function LowerTerms(sym: Symbols, ts: seq<SrcTerm>, c: Ctx): (seq<Term>, Ctx)
    decreases ts
  {
    if ts == [] then ([], c) else
    var a := LowerTerm(sym, ts[0], c);
    var b := LowerTerms(sym, ts[1..], a.1);
    ([a.0] + b.0, b.1)
  }

  /** The first loop: every name of the list gets a fresh id. */
  function BindAll(xs: seq<string>, c: Ctx): Ctx
    decreases |xs|
  {
    if xs == [] then c else BindAll(xs[1..], Ctx(c.vars[xs[0] := c.next], c.next + 1))
  }

  datatype Binding = Binding(name: string, was: Option<VarId>)

  function SavedAll(xs: seq<string>, c: Ctx): seq<Binding>
    decreases |xs|
  {
    if xs == [] then []
    else [Binding(xs[0], Get(c.vars, xs[0]))] + SavedAll(xs[1..], Ctx(c.vars[xs[0] := c.next], c.next + 1))
  }

  function RestoreOne(vars: VarMap, b: Binding): VarMap {
    if b.was.Some? then vars[b.name := b.was.value] else vars - {b.name}
  }

  /** The second loop: the saved bindings are put back from front to back. */
  function RestoreAll(vars: VarMap, saved: seq<Binding>): VarMap
    decreases |saved|
  {
    if saved == [] then vars else RestoreAll(RestoreOne(vars, saved[0]), saved[1..])
  }

  /** Quantifiers over `n` consecutive ids from `id`, outermost first. */
  function Nest(universal: bool, id: VarId, n: nat, b: Formula): Formula
    decreases n
  {
    if n == 0 then b
    else if universal then Forall(id, Nest(universal, id + 1, n - 1, b))
    else Exists(id, Nest(universal, id + 1, n - 1, b))
  }

  function Connect(c: Connective, l: Formula, r: Formula): Formula {
    match c
    case CAnd => MkAnd([l, r])
    case COr => MkOr([l, r])
    case CImpl => Implies(l, r)
    case CRevImpl => Implies(r, l)
    case CIff => Iff(l, r)
    case CXor => Neg(Iff(l, r))
    case CNor => Neg(MkOr([l, r]))
    case CNand => Neg(MkAnd([l, r]))
  }

  /** `lower_fof_formula`. */
  function Lower(sym: Symbols, f: Src, c: Ctx): (Formula, Ctx)
    decreases f
  {
    match f
    case Atomic(w, args) => var r := LowerTerms(sym, args, c); (AtomF(Pred(sym(w), r.0)), r.1)
    case Verum => (True, c)
    case Falsum => (False, c)
    case Negation(g) => var r := Lower(sym, g, c); (Neg(r.0), r.1)
    case Quantified(u, xs, b) =>
      var r := Lower(sym, b, BindAll(xs, c));
      (Nest(u, c.next, |xs|, r.0), Ctx(RestoreAll(r.1.vars, SavedAll(xs, c)), r.1.next))
    case Binary(l, k, r) =>
      var a := Lower(sym, l, c);
      var b := Lower(sym, r, a.1);
      (Connect(k, a.0, b.0), b.1)
    case Equality(l, r) =>
      var a := LowerTerm(sym, l, c);
      var b := LowerTerm(sym, r, a.1);
      (AtomF(Eq(a.0, b.0)), b.1)
    case Inequality(l, r) =>
      var a := LowerTerm(sym, l, c);
      var b := LowerTerm(sym, r, a.1);
      (Neg(AtomF(Eq(a.0, b.0))), b.1)
    case Parens(g) => Lower(sym, g, c)
  }

  // ----- the context as the source keeps it

  class LowerCtx {
    const sym: Symbols
    var varMap: VarMap
    var nextVar: VarId

    ghost function State(): Ctx
      reads this
    {
      Ctx(varMap, nextVar)
    }

    constructor (sym: Symbols)
      ensures this.sym == sym && State() == Ctx(map[], 0)
    {
      this.sym := sym;
      varMap := map[];
      nextVar := 0;
    }

    method VarFor(name: string) returns (id: VarId)
      modifies this
      ensures (Var(id), State()) == LowerTerm(sym, Variable(name), old(State()))
    {
      if name in varMap { return varMap[name]; }
      id := nextVar;
      nextVar := nextVar + 1;
      varMap := varMap[name := id];
    }

    method TermOf(t: SrcTerm) returns (r: Term)
      modifies this
      ensures (r, State()) == LowerTerm(sym, t, old(State()))
      decreases t
    {
      match t
      case Variable(x) =>
        var id := VarFor(x);
        r := Var(id);
      case Apply(w, args) =>
        var us := TermsOf(args);
        r := App(sym(w), us);
    }

    method TermsOf(ts: seq<SrcTerm>) returns (us: seq<Term>)
      modifies this
      ensures (us, State()) == LowerTerms(sym, ts, old(State()))
      decreases ts
    {
      us := [];
      assert ts[0..] == ts && [] + LowerTerms(sym, ts, State()).0 == LowerTerms(sym, ts, State()).0;
      for i := 0 to |ts|
        invariant LowerTerms(sym, ts, old(State())) == var r := LowerTerms(sym, ts[i..], State()); (us + r.0, r.1)
      {
        assert ts[i..][1..] == ts[i + 1..];
        ghost var before := us;
        var u := TermOf(ts[i]);
        us := us + [u];
        assert before + ([u] + LowerTerms(sym, ts[i + 1..], State()).0) == us + LowerTerms(sym, ts[i + 1..], State()).0;
      }
      assert ts[|ts|..] == [] && us + [] == us;
    }

    /** The binding loop. */
    method Bind(xs: seq<string>) returns (saved: seq<Binding>, ids: seq<VarId>)
      modifies this
      ensures State() == BindAll(xs, old(State())) && saved == SavedAll(xs, old(State()))
      ensures |ids| == |xs| && forall k :: 0 <= k < |xs| ==> ids[k] == old(nextVar) + k
    {
      ghost var start := State();
      saved, ids := [], [];
      assert xs[0..] == xs && [] + SavedAll(xs, start) == SavedAll(xs, start);
      for i := 0 to |xs|
        invariant |ids| == i && (forall k :: 0 <= k < i ==> ids[k] == start.next + k) && nextVar == start.next + i
        invariant BindAll(xs, start) == BindAll(xs[i..], State())
        invariant SavedAll(xs, start) == saved + SavedAll(xs[i..], State())
      {
        assert xs[i..][1..] == xs[i + 1..];
        var entry := Binding(xs[i], Get(varMap, xs[i]));
        ConcatAssoc(saved, [entry], SavedAll(xs[i + 1..], Ctx(varMap[xs[i] := nextVar], nextVar + 1)));
        saved, ids := saved + [entry], ids + [nextVar];
        varMap, nextVar := varMap[xs[i] := nextVar], nextVar + 1;
      }
      assert xs[|xs|..] == [] && saved + [] == saved;
    }

    /** The restoring loop. */
    method Restore(saved: seq<Binding>)
      modifies this`varMap
      ensures varMap == RestoreAll(old(varMap), saved)
    {
      assert saved[0..] == saved;
      for i := 0 to |saved|
        invariant RestoreAll(varMap, saved[i..]) == RestoreAll(old(varMap), saved)
      {
        assert saved[i..][1..] == saved[i + 1..];
        varMap := RestoreOne(varMap, saved[i]);
      }
      assert saved[|saved|..] == [];
    }

    method QuantifiedOf(universal: bool, xs: seq<string>, b: Src) returns (r: Formula)
      modifies this
      ensures (r, State()) == Lower(sym, Quantified(universal, xs, b), old(State()))
      decreases b, 1
    {
      ghost var start := State();
      var saved, ids := Bind(xs);
      r := FormulaOf(b);
      Restore(saved);
      ghost var body := r;
      for i := |ids| downto 0
        invariant r == Nest(universal, start.next + i, |xs| - i, body)
      {
        r := if universal then Forall(ids[i], r) else Exists(ids[i], r);
      }
    }

    method FormulaOf(f: Src) returns (r: Formula)
      modifies this
      ensures (r, State()) == Lower(sym, f, old(State()))
      decreases f, 0
    {
      match f
      case Atomic(w, args) =>
        var us := TermsOf(args);
        r := AtomF(Pred(sym(w), us));
      case Verum => r := True;
      case Falsum => r := False;
      case Negation(g) =>
        r := FormulaOf(g);
        r := Neg(r);
      case Quantified(u, xs, b) => r := QuantifiedOf(u, xs, b);
      case Binary(l, k, rt) =>
        var a := FormulaOf(l);
        var b := FormulaOf(rt);
        r := Connect(k, a, b);
      case Equality(l, rt) =>
        var a := TermOf(l);
        var b := TermOf(rt);
        r := AtomF(Eq(a, b));
      case Inequality(l, rt) =>
        var a := TermOf(l);
        var b := TermOf(rt);
        r := Neg(AtomF(Eq(a, b)));
      case Parens(g) => r := FormulaOf(g);
    }
  }

  // ----- the restore loop

  ghost predicate Older(c: Ctx) { forall x :: x in c.vars ==> c.vars[x] < c.next }

  function LastSaved(saved: seq<Binding>, y: string, other: Option<VarId>): Option<VarId>
    decreases |saved|
  {
    if saved == [] then other else LastSaved(saved[1..], y, if saved[0].name == y then saved[0].was else other)
  }

  lemma {:induction false} RestoreGet(vars: VarMap, saved: seq<Binding>, y: string)
    ensures Get(RestoreAll(vars, saved), y) == LastSaved(saved, y, Get(vars, y))
    decreases |saved|
  {
    if saved != [] { RestoreGet(RestoreOne(vars, saved[0]), saved[1..], y); }
  }

  /** What is put back last: the outer binding for a name listed once, a fresh id of this very
      quantifier for a name listed again. */
  lemma {:induction false} LastSavedIs(xs: seq<string>, c: Ctx, y: string, other: Option<VarId>)
    ensures var r := LastSaved(SavedAll(xs, c), y, other);
      && (y !in xs ==> r == other)
      && (multiset(xs)[y] == 1 ==> r == Get(c.vars, y))
      && (multiset(xs)[y] > 1 ==> r.Some? && c.next <= r.value < c.next + |xs|)
    decreases |xs|
  {
    if xs != [] {
      assert xs == [xs[0]] + xs[1..];
      var c1 := Ctx(c.vars[xs[0] := c.next], c.next + 1);
      assert SavedAll(xs, c)[1..] == SavedAll(xs[1..], c1);
      LastSavedIs(xs[1..], c1, y, if xs[0] == y then Get(c.vars, xs[0]) else other);
      assert y in xs[1..] <==> multiset(xs[1..])[y] > 0;
    }
  }

  /** The names listed more than once. */
  function Repeated(xs: seq<string>): set<string> { set x | x in xs && multiset(xs)[x] > 1 }

  function NameSet(xs: seq<string>): set<string> { set x | x in xs }

  lemma GetDetermines(a: VarMap, b: VarMap)
    requires forall x :: Get(a, x) == Get(b, x)
    ensures a == b
  {
    forall x ensures x in a <==> x in b { assert Get(a, x) == Get(b, x); }
    forall x | x in a ensures a[x] == b[x] { assert Get(a, x) == Get(b, x); }
  }

  /** What the loop makes of the map that the body left: front to back, the second entry of a
      repeated name overwrites its outer binding with an id of this quantifier. */
  lemma RestoredGet(xs: seq<string>, c: Ctx, body: VarMap, y: string)
    ensures var r := Get(RestoreAll(body, SavedAll(xs, c)), y);
      if y in Repeated(xs) then r.Some? && c.next <= r.value < c.next + |xs|
      else r == if y in xs then Get(c.vars, y) else Get(body, y)
  {
    RestoreGet(body, SavedAll(xs, c), y);
    LastSavedIs(xs, c, y, Get(body, y));
    assert y in xs <==> multiset(xs)[y] > 0;
  }

  /** The loop puts the map back exactly when no name is repeated in the list and the body left the
      unlisted names alone. */
  lemma RestoreExact(xs: seq<string>, c: Ctx, body: VarMap)
    requires Older(c)
    ensures RestoreAll(body, SavedAll(xs, c)) == c.vars <==>
      Repeated(xs) == {} && forall y :: y !in xs ==> Get(body, y) == Get(c.vars, y)
  {
    var vars := RestoreAll(body, SavedAll(xs, c));
    forall y
      ensures Get(vars, y) == Get(c.vars, y) <==>
        y !in Repeated(xs) && (y !in xs ==> Get(body, y) == Get(c.vars, y))
    {
      RestoredGet(xs, c, body, y);
    }
    if Repeated(xs) == {} && forall y :: y !in xs ==> Get(body, y) == Get(c.vars, y) { GetDetermines(vars, c.vars); }
    if vars == c.vars {
      forall y ensures y !in Repeated(xs) && (y !in xs ==> Get(body, y) == Get(c.vars, y)) {
        assert Get(vars, y) == Get(c.vars, y);
      }
    }
  }

  // ----- free names, and the names a formula leaves bound to other ids

  function TermNames(t: SrcTerm): set<string>
    decreases t
  {
    match t
    case Variable(x) => {x}
    case Apply(_, args) => ArgNames(args)
  }

  function ArgNames(ts: seq<SrcTerm>): set<string>
    decreases ts
  {
    if ts == [] then {} else TermNames(ts[0]) + ArgNames(ts[1..])
  }

  /** The names that occur outside the scope of their quantifiers; none in a closed formula. */
  function FreeNames(f: Src): set<string> {
    match f
    case Atomic(_, args) => ArgNames(args)
    case Verum => {}
    case Falsum => {}
    case Negation(g) => FreeNames(g)
    case Quantified(_, xs, b) => FreeNames(b) - NameSet(xs)
    case Binary(l, _, r) => FreeNames(l) + FreeNames(r)
    case Equality(l, r) => TermNames(l) + TermNames(r)
    case Inequality(l, r) => TermNames(l) + TermNames(r)
    case Parens(g) => FreeNames(g)
  }

  /** The names that are bound to another id after lowering than before. */
  function Stale(f: Src): set<string> {
    match f
    case Negation(g) => Stale(g)
    case Quantified(_, xs, b) => Repeated(xs) + (Stale(b) - NameSet(xs))
    case Binary(l, _, r) => Stale(l) + Stale(r)
    case Parens(g) => Stale(g)
    case _ => {}
  }

  /** No name is used after a sibling has left it stale. */
  predicate Undisturbed(f: Src) {
    match f
    case Negation(g) => Undisturbed(g)
    case Quantified(_, _, b) => Undisturbed(b)
    case Binary(l, _, r) => Stale(l) !! FreeNames(r) && Undisturbed(l) && Undisturbed(r)
    case Parens(g) => Undisturbed(g)
    case _ => true
  }

  predicate RepeatFree(f: Src) {
    match f
    case Negation(g) => RepeatFree(g)
    case Quantified(_, xs, b) => Repeated(xs) == {} && RepeatFree(b)
    case Binary(l, _, r) => RepeatFree(l) && RepeatFree(r)
    case Parens(g) => RepeatFree(g)
    case _ => true
  }

  /** Without repeated names nothing goes stale. */
  lemma {:induction false} RepeatFreeUndisturbed(f: Src)
    requires RepeatFree(f)
    ensures Stale(f) == {} && Undisturbed(f)
    decreases f
  {
    match f
    case Negation(g) => RepeatFreeUndisturbed(g);
    case Quantified(_, _, b) => RepeatFreeUndisturbed(b);
    case Binary(l, _, r) => RepeatFreeUndisturbed(l); RepeatFreeUndisturbed(r);
    case Parens(g) => RepeatFreeUndisturbed(g);
    case _ =>
  }

  /** The ids of the given names. */
  function Ids(vars: VarMap, names: set<string>): set<VarId> { set x | x in names && x in vars :: vars[x] }

  lemma IdsPlus(vars: VarMap, p: set<string>, q: set<string>)
    ensures Ids(vars, p + q) == Ids(vars, p) + Ids(vars, q)
  {
  }

  lemma {:induction false} TermKept(sym: Symbols, t: SrcTerm, c: Ctx)
    requires TermNames(t) <= c.vars.Keys
    ensures LowerTerm(sym, t, c).1 == c && TermVars(LowerTerm(sym, t, c).0) == Ids(c.vars, TermNames(t))
    decreases t
  {
    match t
    case Variable(x) =>
    case Apply(_, args) => TermsKept(sym, args, c);
  }

  lemma {:induction false} TermsKept(sym: Symbols, ts: seq<SrcTerm>, c: Ctx)
    requires ArgNames(ts) <= c.vars.Keys
    ensures var r := LowerTerms(sym, ts, c);
      r.1 == c && |r.0| == |ts| && AtomVars(Pred(0, r.0)) == Ids(c.vars, ArgNames(ts))
    decreases ts
  {
    if ts != [] {
      TermKept(sym, ts[0], c);
      TermsKept(sym, ts[1..], c);
      IdsPlus(c.vars, TermNames(ts[0]), ArgNames(ts[1..]));
      AtomVarsCons(LowerTerm(sym, ts[0], c).0, LowerTerms(sym, ts[1..], c).0);
    }
  }

  lemma AtomVarsCons(t: Term, ts: seq<Term>)
    ensures AtomVars(Pred(0, [t] + ts)) == TermVars(t) + AtomVars(Pred(0, ts))
  {
    var us := [t] + ts;
    assert us[0] == t;
    forall x | x in AtomVars(Pred(0, ts)) ensures x in AtomVars(Pred(0, us)) {
      var i :| 0 <= i < |ts| && x in TermVars(ts[i]);
      assert us[i + 1] == ts[i];
    }
  }

  ghost predicate Within(vs: set<VarId>, lo: VarId, hi: VarId) { forall v :: v in vs ==> lo <= v < hi }

  lemma {:induction false} BindShape(xs: seq<string>, c: Ctx)
    requires Older(c)
    ensures var d := BindAll(xs, c);
      && Older(d) && d.next == c.next + |xs| && d.vars.Keys == c.vars.Keys + NameSet(xs)
      && (forall y :: y !in xs ==> Get(d.vars, y) == Get(c.vars, y))
      && (forall y :: y in d.vars ==> d.vars[y] in c.vars.Values || c.next <= d.vars[y])
    decreases |xs|
  {
    if xs != [] {
      var c1 := Ctx(c.vars[xs[0] := c.next], c.next + 1);
      BindShape(xs[1..], c1);
      assert xs == [xs[0]] + xs[1..];
      assert forall v :: v in c1.vars.Values ==> v == c.next || v in c.vars.Values;
    }
  }

  lemma {:induction false} NestShape(u: bool, id: VarId, n: nat, b: Formula, hi: VarId)
    requires Distinct(b) && Within(BoundVars(b), id + n, hi) && id + n <= hi
    ensures var r := Nest(u, id, n, b); Distinct(r) && Within(BoundVars(r), id, hi)
    decreases n
  {
    if n > 0 { NestShape(u, id + 1, n - 1, b, hi); }
  }

  lemma {:induction false} NestFree(u: bool, id: VarId, n: nat, b: Formula)
    ensures forall v :: v in FreeVars(Nest(u, id, n, b)) <==> v in FreeVars(b) && !(id <= v < id + n)
    decreases n
  {
    if n > 0 { NestFree(u, id + 1, n - 1, b); }
  }

  lemma PairShape(k: Connective, l: Formula, r: Formula, lo: VarId, mid: VarId, hi: VarId)
    requires Distinct(l) && Distinct(r) && lo <= mid <= hi
    requires Within(BoundVars(l), lo, mid) && Within(BoundVars(r), mid, hi)
    ensures Distinct(Connect(k, l, r)) && Within(BoundVars(Connect(k, l, r)), lo, hi)
    ensures FreeVars(Connect(k, l, r)) == FreeVars(l) + FreeVars(r)
  {
    var ps := [l, r];
    assert ps[0] == l && ps[1] == r;
    assert DistinctAll(ps);
  }

  // ----- the map after lowering

  /** Exactly the names in `stale` are bound to other ids, all of them drawn since `c`. */
  ghost predicate LeavesStale(c: Ctx, d: Ctx, stale: set<string>) {
    && c.next <= d.next && Older(d)
    && (forall y :: y !in stale ==> Get(d.vars, y) == Get(c.vars, y))
    && (forall y :: y in stale ==> y in d.vars && d.vars[y] >= c.next)
  }

  lemma {:induction false} MapAfter(sym: Symbols, f: Src, c: Ctx)
    requires Older(c) && FreeNames(f) <= c.vars.Keys
    ensures LeavesStale(c, Lower(sym, f, c).1, Stale(f))
    decreases f
  {
    match f
    case Atomic(_, args) => TermsKept(sym, args, c);
    case Negation(g) => MapAfter(sym, g, c);
    case Quantified(u, xs, b) =>
      BindShape(xs, c);
      MapAfter(sym, b, BindAll(xs, c));
      MapAfterQuantifier(xs, b, c, Lower(sym, b, BindAll(xs, c)).1);
    case Binary(l, k, r) =>
      var a := Lower(sym, l, c).1;
      MapAfter(sym, l, c);
      KeysGrow(c, a, Stale(l));
      MapAfter(sym, r, a);
    case Equality(l, r) => TermKept(sym, l, c); TermKept(sym, r, c);
    case Inequality(l, r) => TermKept(sym, l, c); TermKept(sym, r, c);
    case Parens(g) => MapAfter(sym, g, c);
    case _ =>
  }

  lemma KeysGrow(c: Ctx, d: Ctx, stale: set<string>)
    requires LeavesStale(c, d, stale)
    ensures c.vars.Keys <= d.vars.Keys
  {
    forall y | y in c.vars ensures y in d.vars { assert y !in stale ==> Get(d.vars, y) == Get(c.vars, y); }
  }

  lemma MapAfterQuantifier(xs: seq<string>, b: Src, c: Ctx, body: Ctx)
    requires Older(c) && LeavesStale(BindAll(xs, c), body, Stale(b))
    ensures LeavesStale(c, Ctx(RestoreAll(body.vars, SavedAll(xs, c)), body.next),
                        Repeated(xs) + (Stale(b) - NameSet(xs)))
  {
    BindShape(xs, c);
    var d := Ctx(RestoreAll(body.vars, SavedAll(xs, c)), body.next);
    forall y
      ensures y !in Repeated(xs) + (Stale(b) - NameSet(xs)) ==> Get(d.vars, y) == Get(c.vars, y)
      ensures y in Repeated(xs) + (Stale(b) - NameSet(xs)) ==> y in d.vars && d.vars[y] >= c.next
      ensures y in d.vars ==> d.vars[y] < d.next
    {
      RestoredGet(xs, c, body.vars, y);
    }
  }

  /** Lowering puts the map back exactly when it leaves no name stale. */
  lemma MapKeptExact(sym: Symbols, f: Src, c: Ctx)
    requires Older(c) && FreeNames(f) <= c.vars.Keys
    ensures Lower(sym, f, c).1.vars == c.vars <==> Stale(f) == {}
  {
    var d := Lower(sym, f, c).1;
    MapAfter(sym, f, c);
    if Stale(f) == {} { GetDetermines(d.vars, c.vars); }
    if y :| y in Stale(f) { assert d.vars[y] >= c.next && (y in c.vars ==> c.vars[y] < c.next); }
  }

  // ----- binders

  /** Lowering binds every id once, and only ids it drew itself. */
  lemma {:induction false} LoweredShape(sym: Symbols, f: Src, c: Ctx)
    requires Older(c) && FreeNames(f) <= c.vars.Keys
    ensures var r := Lower(sym, f, c);
      c.next <= r.1.next && Distinct(r.0) && Within(BoundVars(r.0), c.next, r.1.next)
    decreases f
  {
    MapAfter(sym, f, c);
    match f
    case Negation(g) => LoweredShape(sym, g, c);
    case Quantified(u, xs, b) =>
      var d := BindAll(xs, c);
      BindShape(xs, c);
      MapAfter(sym, b, d);
      LoweredShape(sym, b, d);
      NestShape(u, c.next, |xs|, Lower(sym, b, d).0, Lower(sym, b, d).1.next);
    case Binary(l, k, r) =>
      var a := Lower(sym, l, c);
      MapAfter(sym, l, c);
      KeysGrow(c, a.1, Stale(l));
      LoweredShape(sym, l, c);
      LoweredShape(sym, r, a.1);
      PairShape(k, a.0, Lower(sym, r, a.1).0, c.next, a.1.next, Lower(sym, r, a.1).1.next);
    case Parens(g) => LoweredShape(sym, g, c);
    case _ =>
  }

  // ----- free variables

  /** Some variable was drawn at or after `lo`. */
  ghost predicate Reaches(vars: set<VarId>, lo: VarId) { exists v :: v in vars && v >= lo }

  /** Undisturbed, the free variables are the ids of the free names; disturbed, one of them
      belongs to a quantifier that is closed already. */
  ghost predicate FreeShape(free: set<VarId>, undisturbed: bool, ids: set<VarId>, lo: VarId) {
    && (undisturbed ==> free <= ids)
    && (!undisturbed ==> Reaches(free, lo))
    && (ids <= free || Reaches(free, lo))
  }

  ghost predicate FreeOut(g: Formula, f: Src, c: Ctx) {
    FreeShape(FreeVars(g), Undisturbed(f), Ids(c.vars, FreeNames(f)), c.next)
  }

  lemma {:induction false} LoweredFree(sym: Symbols, f: Src, c: Ctx)
    requires Older(c) && FreeNames(f) <= c.vars.Keys
    ensures FreeOut(Lower(sym, f, c).0, f, c)
    decreases f
  {
    match f
    case Atomic(_, args) => TermsKept(sym, args, c);
    case Negation(g) =>
      LoweredFree(sym, g, c);
      assert FreeVars(Lower(sym, f, c).0) == FreeVars(Lower(sym, g, c).0);
    case Quantified(u, xs, b) =>
      var d := BindAll(xs, c);
      BindShape(xs, c);
      LoweredFree(sym, b, d);
      QuantifiedFree(u, xs, b, c, Lower(sym, b, d).0);
    case Binary(l, k, r) =>
      var a := Lower(sym, l, c);
      var z := Lower(sym, r, a.1);
      MapAfter(sym, l, c);
      KeysGrow(c, a.1, Stale(l));
      LoweredFree(sym, l, c);
      LoweredFree(sym, r, a.1);
      BinaryFree(l, k, r, c, a.1, a.0, z.0);
    case Equality(l, r) => EquationFree(sym, l, r, c);
    case Inequality(l, r) => EquationFree(sym, l, r, c);
    case Parens(g) => LoweredFree(sym, g, c);
    case _ =>
  }

  lemma EquationFree(sym: Symbols, l: SrcTerm, r: SrcTerm, c: Ctx)
    requires TermNames(l) + TermNames(r) <= c.vars.Keys
    ensures LowerTerm(sym, l, c).1 == c
    ensures TermVars(LowerTerm(sym, l, c).0) + TermVars(LowerTerm(sym, r, c).0) ==
      Ids(c.vars, TermNames(l) + TermNames(r))
  {
    TermKept(sym, l, c);
    TermKept(sym, r, c);
    IdsPlus(c.vars, TermNames(l), TermNames(r));
  }

  lemma QuantifiedFree(u: bool, xs: seq<string>, b: Src, c: Ctx, g: Formula)
    requires Older(c) && FreeOut(g, b, BindAll(xs, c)) && FreeNames(b) - NameSet(xs) <= c.vars.Keys
    ensures FreeOut(Nest(u, c.next, |xs|, g), Quantified(u, xs, b), c)
  {
    BindShape(xs, c);
    NestFree(u, c.next, |xs|, g);
    BoundIds(xs, c, FreeNames(b));
    NestOut(Ids(BindAll(xs, c).vars, FreeNames(b)), Ids(c.vars, FreeNames(b) - NameSet(xs)), Undisturbed(b),
            FreeVars(Nest(u, c.next, |xs|, g)), FreeVars(g), c.next, c.next + |xs|);
  }

  /** Closing over the ids from `lo` to `mid` keeps what escapes and what is older. */
  lemma NestOut(inner: set<VarId>, outer: set<VarId>, ok: bool, after: set<VarId>, free: set<VarId>, lo: VarId,
                mid: VarId)
    requires FreeShape(free, ok, inner, mid) && lo <= mid
    requires forall v :: v in after <==> v in free && !(lo <= v < mid)
    requires forall v :: v in inner && !(lo <= v < mid) ==> v in outer
    requires forall v :: v in outer ==> v in inner && v < lo
    ensures FreeShape(after, ok, outer, lo)
  {
    if v :| v in free && v >= mid { assert v in after; }
  }

  /** The ids after the binding loop: those of the other names, and the ones just drawn. */
  lemma BoundIds(xs: seq<string>, c: Ctx, names: set<string>)
    requires Older(c)
    ensures forall v :: v in Ids(BindAll(xs, c).vars, names) && !(c.next <= v < c.next + |xs|) ==>
      v in Ids(c.vars, names - NameSet(xs))
    ensures forall v :: v in Ids(c.vars, names - NameSet(xs)) ==> v in Ids(BindAll(xs, c).vars, names) && v < c.next
  {
    BindShape(xs, c);
    var d := BindAll(xs, c);
    forall x | x in names - NameSet(xs) ensures Get(d.vars, x) == Get(c.vars, x) {}
    BindDrawn(xs, c);
  }

  lemma {:induction false} BindDrawn(xs: seq<string>, c: Ctx)
    ensures forall x :: x in xs ==> x in BindAll(xs, c).vars && c.next <= BindAll(xs, c).vars[x] < c.next + |xs|
    decreases |xs|
  {
    if xs != [] {
      var c1 := Ctx(c.vars[xs[0] := c.next], c.next + 1);
      BindDrawn(xs[1..], c1);
      if xs[0] !in xs[1..] { BindOther(xs[1..], c1, xs[0]); }
      assert xs == [xs[0]] + xs[1..];
    }
  }

  lemma {:induction false} BindOther(xs: seq<string>, c: Ctx, y: string)
    requires y !in xs
    ensures Get(BindAll(xs, c).vars, y) == Get(c.vars, y)
    decreases |xs|
  {
    if xs != [] {
      assert xs == [xs[0]] + xs[1..];
      BindOther(xs[1..], Ctx(c.vars[xs[0] := c.next], c.next + 1), y);
    }
  }

  lemma BinaryFree(l: Src, k: Connective, r: Src, c: Ctx, a: Ctx, g: Formula, h: Formula)
    requires Older(c) && FreeNames(l) + FreeNames(r) <= c.vars.Keys
    requires LeavesStale(c, a, Stale(l)) && FreeOut(g, l, c) && FreeOut(h, r, a)
    ensures FreeOut(Connect(k, g, h), Binary(l, k, r), c)
  {
    var apart := Stale(l) !! FreeNames(r);
    ConnectVars(k, g, h);
    IdsPlus(c.vars, FreeNames(l), FreeNames(r));
    KeysGrow(c, a, Stale(l));
    if apart { IdsKept(c, a, Stale(l), FreeNames(r)); } else { StaleReaches(c, a, Stale(l), FreeNames(r)); }
    UnionOut(FreeVars(g), Undisturbed(l), Ids(c.vars, FreeNames(l)), FreeVars(h), Undisturbed(r),
             Ids(a.vars, FreeNames(r)), Ids(c.vars, FreeNames(r)), apart, c.next, a.next);
  }

  /** Two sides, the second lowered with ids `seen` for names whose ids should be `meant`. */
  lemma UnionOut(left: set<VarId>, okLeft: bool, ids: set<VarId>, right: set<VarId>, okRight: bool, seen: set<VarId>,
                 meant: set<VarId>, apart: bool, lo: VarId, mid: VarId)
    requires FreeShape(left, okLeft, ids, lo) && FreeShape(right, okRight, seen, mid) && lo <= mid
    requires if apart then seen == meant else Reaches(seen, lo)
    ensures FreeShape(left + right, apart && okLeft && okRight, ids + meant, lo)
  {
    ReachesMore(left, left + right, lo, lo);
    ReachesMore(right, left + right, mid, lo);
    if !apart && !Reaches(right, mid) { ReachesMore(seen, left + right, lo, lo); }
  }

  lemma ReachesMore(p: set<VarId>, q: set<VarId>, mid: VarId, lo: VarId)
    requires p <= q && lo <= mid
    ensures Reaches(p, mid) ==> Reaches(q, lo)
  {
    if v :| v in p && v >= mid { assert v in q; }
  }

  lemma StaleReaches(c: Ctx, d: Ctx, stale: set<string>, names: set<string>)
    requires LeavesStale(c, d, stale) && !(stale !! names)
    ensures Reaches(Ids(d.vars, names), c.next)
  {
    var x :| x in stale && x in names;
    assert d.vars[x] in Ids(d.vars, names);
  }

  lemma IdsKept(c: Ctx, d: Ctx, stale: set<string>, names: set<string>)
    requires LeavesStale(c, d, stale) && stale !! names
    ensures Ids(d.vars, names) == Ids(c.vars, names)
  {
    forall x | x in names ensures Get(d.vars, x) == Get(c.vars, x) {}
  }

  lemma ConnectVars(k: Connective, l: Formula, r: Formula)
    ensures FreeVars(Connect(k, l, r)) == FreeVars(l) + FreeVars(r)
  {
    var ps := [l, r];
    assert ps[0] == l && ps[1] == r;
  }

  // ----- meaning

  /** The given names and their ids denote the same things. */
  ghost predicate Linked<D(!new)>(vars: VarMap, e: Env<D>, rho: Names<D>, names: set<string>) {
    forall x :: x in names ==> x in vars && e(vars[x]) == rho(x)
  }

  lemma {:induction false} TermLowered<D(!new)>(m: Structure<D>, sym: Symbols, e: Env<D>, rho: Names<D>, t: SrcTerm,
                                                c: Ctx)
    requires Linked(c.vars, e, rho, TermNames(t))
    ensures Val(m, e, LowerTerm(sym, t, c).0) == SrcVal(m, sym, rho, t)
    decreases t
  {
    if t.Apply? { TermsLowered(m, sym, e, rho, t.args, c); }
  }

  lemma {:induction false} TermsLowered<D(!new)>(m: Structure<D>, sym: Symbols, e: Env<D>, rho: Names<D>,
                                                 ts: seq<SrcTerm>, c: Ctx)
    requires Linked(c.vars, e, rho, ArgNames(ts))
    ensures Vals(m, e, LowerTerms(sym, ts, c).0) == SrcVals(m, sym, rho, ts)
    decreases ts
  {
    if ts != [] {
      TermKept(sym, ts[0], c);
      TermLowered(m, sym, e, rho, ts[0], c);
      TermsLowered(m, sym, e, rho, ts[1..], c);
      var t, rest := LowerTerm(sym, ts[0], c).0, LowerTerms(sym, ts[1..], c).0;
      assert LowerTerms(sym, ts, c).0 == [t] + rest && ts == [ts[0]] + ts[1..];
      assert Vals(m, e, [t] + rest) == [Val(m, e, t)] + Vals(m, e, rest);
      assert SrcVals(m, sym, rho, ts) == [SrcVal(m, sym, rho, ts[0])] + SrcVals(m, sym, rho, ts[1..]);
    }
  }

  ghost predicate BodyMeans<D(!new)>(m: Structure<D>, sym: Symbols, vars: VarMap, g: Formula, b: Src) {
    forall e: Env<D>, rho: Names<D> ::
      Linked(vars, e, rho, FreeNames(b)) ==> Holds(m, e, g) == SrcHolds(m, sym, rho, b)
  }

  lemma {:induction false} NestMeans<D(!new)>(m: Structure<D>, sym: Symbols, e: Env<D>, rho: Names<D>, u: bool,
                                              xs: seq<string>, c: Ctx, g: Formula, b: Src)
    requires Older(c) && Linked(c.vars, e, rho, FreeNames(b) - NameSet(xs))
    requires BodyMeans(m, sym, BindAll(xs, c).vars, g, b)
    ensures Holds(m, e, Nest(u, c.next, |xs|, g)) == QuantHolds(m, sym, rho, u, xs, b)
    decreases |xs|
  {
    if xs == [] {
      assert FreeNames(b) - NameSet(xs) == FreeNames(b);
    } else {
      var c1 := Ctx(c.vars[xs[0] := c.next], c.next + 1);
      forall d: D
        ensures Holds(m, Upd(e, c.next, d), Nest(u, c.next + 1, |xs| - 1, g)) ==
          QuantHolds(m, sym, Named(rho, xs[0], d), u, xs[1..], b)
      {
        LinkedStep(e, rho, xs, c, d, FreeNames(b));
        NestMeans(m, sym, Upd(e, c.next, d), Named(rho, xs[0], d), u, xs[1..], c1, g, b);
      }
    }
  }

  lemma LinkedStep<D(!new)>(e: Env<D>, rho: Names<D>, xs: seq<string>, c: Ctx, d: D, names: set<string>)
    requires Older(c) && xs != [] && Linked(c.vars, e, rho, names - NameSet(xs))
    ensures Linked(c.vars[xs[0] := c.next], Upd(e, c.next, d), Named(rho, xs[0], d), names - NameSet(xs[1..]))
  {
    assert xs == [xs[0]] + xs[1..];
    forall x | x in names - NameSet(xs[1..]) && x != xs[0] ensures x in names - NameSet(xs) {}
  }

  lemma ConnectMeans<D(!new)>(m: Structure<D>, e: Env<D>, k: Connective, l: Formula, r: Formula)
    ensures Holds(m, e, Connect(k, l, r)) == Means(k, Holds(m, e, l), Holds(m, e, r))
  {
    var ps := [l, r];
    assert ps[0] == l && ps[1] == r;
  }

  /** Undisturbed, the lowered formula means what the source formula means, names that are
      shadowed or repeated in one list included. */
  lemma {:induction false} LoweredMeans<D(!new)>(m: Structure<D>, sym: Symbols, e: Env<D>, rho: Names<D>, f: Src,
                                                 c: Ctx)
    requires Older(c) && Undisturbed(f) && Linked(c.vars, e, rho, FreeNames(f))
    ensures Holds(m, e, Lower(sym, f, c).0) == SrcHolds(m, sym, rho, f)
    decreases f
  {
    match f
    case Atomic(_, args) => TermsLowered(m, sym, e, rho, args, c);
    case Negation(g) => LoweredMeans(m, sym, e, rho, g, c);
    case Quantified(u, xs, b) =>
      BindShape(xs, c);
      var d := BindAll(xs, c);
      var g := Lower(sym, b, d).0;
      forall e2: Env<D>, rho2: Names<D> | Linked(d.vars, e2, rho2, FreeNames(b))
        ensures Holds(m, e2, g) == SrcHolds(m, sym, rho2, b)
      {
        LoweredMeans(m, sym, e2, rho2, b, d);
      }
      NestMeans(m, sym, e, rho, u, xs, c, g, b);
    case Binary(l, k, r) =>
      var a := Lower(sym, l, c);
      MapAfter(sym, l, c);
      LoweredMeans(m, sym, e, rho, l, c);
      LinkedKept(c, a.1, Stale(l), e, rho, FreeNames(r));
      LoweredMeans(m, sym, e, rho, r, a.1);
      ConnectMeans(m, e, k, a.0, Lower(sym, r, a.1).0);
    case Equality(l, r) =>
      TermKept(sym, l, c);
      TermLowered(m, sym, e, rho, l, c);
      TermLowered(m, sym, e, rho, r, c);
    case Inequality(l, r) =>
      TermKept(sym, l, c);
      TermLowered(m, sym, e, rho, l, c);
      TermLowered(m, sym, e, rho, r, c);
    case Parens(g) => LoweredMeans(m, sym, e, rho, g, c);
    case _ =>
  }

  lemma LinkedKept<D(!new)>(c: Ctx, d: Ctx, stale: set<string>, e: Env<D>, rho: Names<D>, names: set<string>)
    requires LeavesStale(c, d, stale) && stale !! names && Linked(c.vars, e, rho, names)
    ensures Linked(d.vars, e, rho, names)
  {
    forall x | x in names ensures x in d.vars && d.vars[x] == c.vars[x] { assert Get(d.vars, x) == Get(c.vars, x); }
  }

  /** A closed source formula is lowered to a closed formula exactly when no name is used after a
      sibling has left it stale; then it means the same. Binders are distinct in any case. */
  lemma LoweringCorrect<D(!new)>(m: Structure<D>, sym: Symbols, f: Src, e: Env<D>, rho: Names<D>)
    requires FreeNames(f) == {}
    ensures var r := Lower(sym, f, Ctx(map[], 0)).0;
      && Distinct(r)
      && (Closed(r) <==> Undisturbed(f))
      && (Undisturbed(f) ==> Holds(m, e, r) == SrcHolds(m, sym, rho, f))
  {
    var c := Ctx(map[], 0);
    assert FreeNames(f) <= c.vars.Keys && Ids(c.vars, FreeNames(f)) == {};
    LoweredShape(sym, f, c);
    LoweredFree(sym, f, c);
    if Undisturbed(f) { LoweredMeans(m, sym, e, rho, f, c); }
  }

  /** The smallest kind of failure: in `! [X] : ((! [X,X] : p(X)) & q(X))` the right conjunct uses
      the name that the left one has left stale. */
  lemma RepeatedNameEscapes(sym: Symbols) returns (f: Src)
    ensures FreeNames(f) == {} && !Undisturbed(f) && !Closed(Lower(sym, f, Ctx(map[], 0)).0)
  {
    var x := [Variable("X")];
    var inner := Quantified(true, ["X", "X"], Atomic("p", x));
    f := Quantified(true, ["X"], Binary(inner, CAnd, Atomic("q", x)));
    assert x[1..] == [] && ArgNames(x) == {"X"};
    assert multiset(["X", "X"])["X"] == 2 && "X" in Repeated(["X", "X"]);
    assert "X" in ["X", "X"] && "X" in ["X"];
    LoweringCorrect<int>(Structure((s: SymbolId, ds: seq<int>) => 0, (s: SymbolId, ds: seq<int>) => true), sym, f,
                         (v: VarId) => 0, (n: string) => 0);
  }

  /** A repeated name alone does no harm: `! [X,X] : p(X)` is lowered to a closed formula. */
  lemma RepeatedNameHarmless(sym: Symbols) returns (f: Src)
    ensures !RepeatFree(f) && FreeNames(f) == {} && Closed(Lower(sym, f, Ctx(map[], 0)).0)
  {
    var x := [Variable("X")];
    f := Quantified(true, ["X", "X"], Atomic("p", x));
    assert x[1..] == [] && ArgNames(x) == {"X"};
    assert multiset(["X", "X"])["X"] == 2 && "X" in Repeated(["X", "X"]);
    assert "X" in ["X", "X"];
    LoweringCorrect<int>(Structure((s: SymbolId, ds: seq<int>) => 0, (s: SymbolId, ds: seq<int>) => true), sym, f,
                         (v: VarId) => 0, (n: string) => 0);
  }
}
