/** The shipped LPO: memoised per comparison and capped by a step budget. It may decline to
    answer, but whatever it answers is what the plain recursion answers. */
module PathOrderMemo {
  import opened Wrappers
  import opened Fol
  import opened TermOrder
  import opened PathOrder

  type Pair = (Term, Term)

  /** All subterms of `t`, itself included. */
  function Subterms(t: Term): set<Term> {
    match t
    case Var(_) => {t}
    case App(_, args) => {t} + set i, x | 0 <= i < |args| && x in Subterms(args[i]) :: x
  }

  function Pairs(s: Term, t: Term): set<Pair> {
    set a, b | a in Subterms(s) && b in Subterms(t) :: (a, b)
  }

  lemma {:induction false} SubtermsTrans(t: Term, u: Term)
    requires u in Subterms(t)
    ensures Subterms(u) <= Subterms(t) && TermSize(u) <= TermSize(t)
    decreases t
  {
    if t.App? && u != t {
      var i :| 0 <= i < |t.args| && u in Subterms(t.args[i]);
      SubtermsTrans(t.args[i], u);
      ArgSmaller(t.args, i);
    }
  }

  lemma SelfSubterm(t: Term)
    ensures t in Subterms(t)
    ensures t.App? ==> forall i :: 0 <= i < |t.args| ==> t.args[i] in Subterms(t)
  {
    if t.App? {
      forall i | 0 <= i < |t.args| ensures t.args[i] in Subterms(t) { SelfSubterm(t.args[i]); }
    }
  }

  function Measure(p: Pair): nat { TermSize(p.0) + TermSize(p.1) }

  /** One top-level comparison: the memo, the step counter, and the work accounted so far. */
  class LpoMemo {
    const o: Lpo
    const limit: nat
    var ids: map<Pair, bool>
    var steps: nat
    /** Pairs whose uncached evaluation has begun, and the charge reserved for them. */
    ghost var begun: set<Pair>
    ghost var reserved: nat
    ghost const unit: nat
    /** The pairs a comparison can reach. */
    ghost const space: set<Pair>

    ghost predicate SpaceOk() {
      && ClosedSpace(space)
      && forall p :: p in space ==> unit >= 3 * Measure(p)
    }

    /** The charge one uncached evaluation can cause beyond its recursive visits' own. */
    ghost predicate Valid()
      reads this
    {
      && (forall p :: p in ids ==> ids[p] == Gt(o, p.0, p.1))
      && ids.Keys <= begun <= space
      && |begun| <= steps <= limit
      && reserved == unit * |begun|
    }

    /** Evaluations still in progress concern larger pairs than `n`. */
    ghost predicate Idle(n: nat)
      reads this
    {
      forall p :: p in begun && p !in ids ==> Measure(p) > n
    }

    constructor (o: Lpo, limit: nat, ghost unit: nat, ghost space: set<Pair>)
      ensures Valid() && Idle(0) && ids == map[] && begun == {} && steps == 0 && reserved == 0
      ensures this.o == o && this.limit == limit && this.unit == unit && this.space == space
    {
      this.o := o;
      this.limit := limit;
      this.unit := unit;
      this.space := space;
      ids := map[];
      steps := 0;
      begun := {};
      reserved := 0;
    }

    /** `charge_many`; `charge` is the case `count == 1`. */
    method Charge(count: nat) returns (ok: bool)
      requires steps <= limit
      modifies this`steps
      ensures ok == (old(steps) + count <= limit)
      ensures steps == if ok then old(steps) + count else old(steps)
    {
      if count > limit - steps { return false; }
      steps := steps + count;
      return true;
    }

    /** `occurs_in_id`: a stack walk charged per node and per argument list. */
    method OccursIn(v: VarId, t: Term) returns (r: Option<bool>)
      requires steps <= limit
      modifies this`steps
      ensures steps <= limit
      ensures r.Some? ==> r.value == (v in TermVars(t)) && old(steps) < steps <= old(steps) + 2 * TermSize(t)
      ensures r == Some(false) ==> steps == old(steps) + 2 * TermSize(t) - 1
      ensures old(steps) <= steps
      ensures r.None? ==> old(steps) + 2 * TermSize(t) > limit
    {
      var pending := [t];
      assert [t][1..] == [];
      while pending != []
        invariant steps <= limit
        invariant v in TermVars(t) <==> exists i :: 0 <= i < |pending| && v in TermVars(pending[i])
        invariant steps + 2 * TermsSize(pending) - |pending| == old(steps) + 2 * TermSize(t) - 1
        invariant old(steps) <= steps && (pending == [] ==> old(steps) < steps)
        decreases TermsSize(pending)
      {
        var last := |pending| - 1;
        var current := pending[last];
        var rest := pending[..last];
        assert pending == rest + [current];
        PopSize(rest, current);
        var ok := Charge(1);
        if !ok { return None; }
        if current.Var? {
          if current.v == v { return Some(true); }
          pending := rest;
        } else {
          ok := Charge(|current.args|);
          if !ok { return None; }
          pending := rest + current.args;
          PendingVars(rest, current, v);
        }
      }
      return Some(false);
    }

    /** `lpo_gt_id`: a visit is charged even when the memo answers it. */
    method LpoGt(s: Term, t: Term) returns (r: Option<bool>)
      requires SpaceOk() && Valid() && (s, t) in space && Idle(Measure((s, t)))
      modifies this
      ensures Valid() && Grew(old(begun), begun, old(ids), ids)
      ensures r.Some? ==> r.value == Gt(o, s, t)
      ensures r.Some? ==>
        Settled(old(begun), begun, old(ids), ids) && 1 <= steps - old(steps) <= 1 + reserved - old(reserved)
      ensures old(steps) <= steps
      ensures r.None? ==> old(steps) + 1 + reserved - old(reserved) > limit
      decreases s, t, 3
    {
      var ok := Charge(1);
      if !ok { return None; }
      if (s, t) in ids { return Some(ids[(s, t)]); }
      r := LpoGtUncached(s, t);
      if r.None? { return None; }
      ids := ids[(s, t) := r.value];
    }

    method LpoGtUncached(s: Term, t: Term) returns (r: Option<bool>)
      requires SpaceOk() && Valid() && (s, t) in space && Idle(Measure((s, t))) && (s, t) !in ids
      requires |begun| < steps
      modifies this
      ensures Valid() && Grew(old(begun), begun, old(ids), ids) && (s, t) in begun
      ensures r.Some? ==> r.value == Gt(o, s, t)
      ensures r.Some? ==>
        Settled(old(begun) + {(s, t)}, begun, old(ids), ids) && steps - old(steps) <= reserved - old(reserved)
      ensures old(steps) <= steps
      ensures r.None? ==> old(steps) + reserved - old(reserved) > limit
      decreases s, t, 2
    {
      assert (s, t) !in begun;
      assert unit * (|begun| + 1) == unit * |begun| + unit;
      begun := begun + {(s, t)};
      reserved := reserved + unit;
      assert unit >= 3 * Measure((s, t));
      if t.Var? {
        if s == t { return Some(false); }
        r := OccursIn(t.v, s);
      } else if s.Var? {
        r := Some(false);
      } else {
        r := LpoGtApps(s, t);
      }
    }

    method LpoGtApps(s: Term, t: Term) returns (r: Option<bool>)
      requires s.App? && t.App? && SpaceOk() && Valid() && (s, t) in space && Idle(Measure((s, t)) - 1)
      modifies this
      ensures Valid() && Grew(old(begun), begun, old(ids), ids)
      ensures r.Some? ==> r.value == Gt(o, s, t)
      ensures r.Some? ==> Settled(old(begun), begun, old(ids), ids)
      ensures r.Some? ==> |s.args| <= steps - old(steps) <= 3 * Measure((s, t)) + reserved - old(reserved)
      ensures old(steps) <= steps
      ensures r.None? ==> old(steps) + 3 * Measure((s, t)) + reserved - old(reserved) > limit
      decreases s, t, 1
    {
      r := SomeArgReaches(s, t);
      if r.None? || r.value { return; }
      r := ReachesAllArgs(s, t);
      if r.None? || !r.value { return; }
      if o.config.Prec(s.sym) > o.config.Prec(t.sym) { return Some(true); }
      if o.config.Prec(s.sym) < o.config.Prec(t.sym) { return Some(false); }
      r := LexGtArgs(s, t);
    }

    /** Case 2a: some argument of `s` equals or exceeds `t`. */
    method SomeArgReaches(s: Term, t: Term) returns (r: Option<bool>)
      requires s.App? && SpaceOk() && Valid() && (s, t) in space && Idle(Measure((s, t)) - 1)
      modifies this
      ensures Valid() && Grew(old(begun), begun, old(ids), ids)
      ensures r.Some? ==> r.value == exists i :: 0 <= i < |s.args| && (s.args[i] == t || Gt(o, s.args[i], t))
      ensures r.Some? ==> Settled(old(begun), begun, old(ids), ids)
      ensures r.Some? ==> |s.args| <= steps - old(steps) <= 2 * |s.args| + reserved - old(reserved)
      ensures old(steps) <= steps
      ensures r.None? ==> old(steps) + 2 * |s.args| + reserved - old(reserved) > limit
      decreases s, t, 0
    {
      var ok := Charge(|s.args|);
      if !ok { return None; }
      var i := 0;
      while i < |s.args|
        invariant 0 <= i <= |s.args|
        invariant Valid() && Grew(old(begun), begun, old(ids), ids) && Settled(old(begun), begun, old(ids), ids)
        invariant |s.args| <= steps - old(steps) <= |s.args| + i + reserved - old(reserved)
        invariant forall k :: 0 <= k < i ==> s.args[k] != t && !Gt(o, s.args[k], t)
      {
        if s.args[i] == t { return Some(true); }
        LeftStep(space, s, t, i);
        r := LpoGt(s.args[i], t);
        if r.None? || r.value { return; }
        i := i + 1;
      }
      return Some(false);
    }

    /** Cases 2b and 2c: `s` must exceed every argument of `t`. */
    method ReachesAllArgs(s: Term, t: Term) returns (r: Option<bool>)
      requires s.App? && t.App? && SpaceOk() && Valid() && (s, t) in space && Idle(Measure((s, t)) - 1)
      modifies this
      ensures Valid() && Grew(old(begun), begun, old(ids), ids)
      ensures r.Some? ==> r.value == forall j :: 0 <= j < |t.args| ==> Gt(o, s, t.args[j])
      ensures r.Some? ==> Settled(old(begun), begun, old(ids), ids)
      ensures r.Some? ==> |t.args| <= steps - old(steps) <= 2 * |t.args| + reserved - old(reserved)
      ensures old(steps) <= steps
      ensures r.None? ==> old(steps) + 2 * |t.args| + reserved - old(reserved) > limit
      decreases s, t, 0
    {
      var ok := Charge(|t.args|);
      if !ok { return None; }
      var j := 0;
      while j < |t.args|
        invariant 0 <= j <= |t.args|
        invariant Valid() && Grew(old(begun), begun, old(ids), ids) && Settled(old(begun), begun, old(ids), ids)
        invariant |t.args| <= steps - old(steps) <= |t.args| + j + reserved - old(reserved)
        invariant forall k :: 0 <= k < j ==> Gt(o, s, t.args[k])
      {
        RightStep(space, s, t, j);
        r := LpoGt(s, t.args[j]);
        if r.None? || !r.value { return; }
        j := j + 1;
      }
      return Some(true);
    }

    /** `lex_gt_id`: the first differing argument decides. */
    method LexGtArgs(s: Term, t: Term) returns (r: Option<bool>)
      requires s.App? && t.App? && SpaceOk() && Valid() && (s, t) in space && Idle(Measure((s, t)) - 1)
      modifies this
      ensures Valid() && Grew(old(begun), begun, old(ids), ids)
      ensures r.Some? ==> r.value == LexGt(o, s.args, t.args)
      ensures r.Some? ==> Settled(old(begun), begun, old(ids), ids)
      ensures r.Some? ==>
        Shorter(s.args, t.args) <= steps - old(steps) <= Shorter(s.args, t.args) + 1 + reserved - old(reserved)
      ensures old(steps) <= steps
      ensures r.None? ==> old(steps) + Shorter(s.args, t.args) + 1 + reserved - old(reserved) > limit
      decreases s, t, 0
    {
      var ok := Charge(Shorter(s.args, t.args));
      if !ok { return None; }
      var i := 0;
      assert s.args[0..] == s.args && t.args[0..] == t.args;
      while i < Shorter(s.args, t.args)
        invariant 0 <= i <= Shorter(s.args, t.args)
        invariant LexGt(o, s.args, t.args) == LexGt(o, s.args[i..], t.args[i..])
        invariant begun == old(begun) && ids == old(ids) && reserved == old(reserved) && Valid()
        invariant steps == old(steps) + Shorter(s.args, t.args)
      {
        assert s.args[i..][1..] == s.args[i + 1..] && t.args[i..][1..] == t.args[i + 1..];
        if s.args[i] != t.args[i] {
          ArgSmaller(s.args, i); ArgSmaller(t.args, i);
          assert StepsInside((s, t), space) && StepsInside((s.args[i], t), space);
          assert Measure((s.args[i], t.args[i])) < Measure((s, t));
          r := LpoGt(s.args[i], t.args[i]);
          return;
        }
        i := i + 1;
      }
      return Some(o.longerWins && |s.args| > |t.args|);
    }
  }

  function Shorter(ss: seq<Term>, ts: seq<Term>): nat { if |ss| < |ts| then |ss| else |ts| }

  /** Recorded and begun pairs only accumulate. */
  ghost predicate Grew(b0: set<Pair>, b1: set<Pair>, i0: map<Pair, bool>, i1: map<Pair, bool>) {
    b0 <= b1 && i0.Keys <= i1.Keys
  }

  /** Every evaluation begun in between was also recorded. */
  ghost predicate Settled(b0: set<Pair>, b1: set<Pair>, i0: map<Pair, bool>, i1: map<Pair, bool>) {
    forall p :: p in b1 && p !in i1 ==> p in b0 && p !in i0
  }

  /** The recursive calls for `p` stay in `space`. */
  ghost predicate StepsInside(p: Pair, space: set<Pair>) {
    p in space ==>
      && (p.0.App? ==> forall i :: 0 <= i < |p.0.args| ==> (p.0.args[i], p.1) in space)
      && (p.1.App? ==> forall j :: 0 <= j < |p.1.args| ==> (p.0, p.1.args[j]) in space)
  }

  ghost predicate ClosedSpace(space: set<Pair>) {
    forall p :: StepsInside(p, space)
  }

  lemma LeftStep(space: set<Pair>, s: Term, t: Term, i: nat)
    requires ClosedSpace(space) && (s, t) in space && s.App? && i < |s.args|
    ensures (s.args[i], t) in space && Measure((s.args[i], t)) < Measure((s, t))
  {
    ArgSmaller(s.args, i);
    assert StepsInside((s, t), space);
  }

  lemma RightStep(space: set<Pair>, s: Term, t: Term, j: nat)
    requires ClosedSpace(space) && (s, t) in space && t.App? && j < |t.args|
    ensures (s, t.args[j]) in space && Measure((s, t.args[j])) < Measure((s, t))
  {
    ArgSmaller(t.args, j);
    assert StepsInside((s, t), space);
  }

  lemma {:induction false} SizeSplit(p: seq<Term>, q: seq<Term>)
    ensures TermsSize(p + q) == TermsSize(p) + TermsSize(q)
  {
    if p == [] { assert p + q == q; } else { assert (p + q)[1..] == p[1..] + q; SizeSplit(p[1..], q); }
  }

  /** The work left when the last pending term is replaced by its arguments. */
  lemma PopSize(rest: seq<Term>, current: Term)
    ensures TermsSize(rest + [current]) == TermsSize(rest) + TermSize(current)
    ensures current.App? ==> TermsSize(rest + current.args) == TermsSize(rest) + TermSize(current) - 1
  {
    SizeSplit(rest, [current]);
    assert [current][1..] == [];
    if current.App? { SizeSplit(rest, current.args); }
  }

  lemma PendingVars(rest: seq<Term>, current: Term, v: VarId)
    requires current.App?
    ensures (exists i :: 0 <= i < |rest + [current]| && v in TermVars((rest + [current])[i])) <==>
            (exists i :: 0 <= i < |rest + current.args| && v in TermVars((rest + current.args)[i]))
  {
    var a, b := rest + [current], rest + current.args;
    if i :| 0 <= i < |a| && v in TermVars(a[i]) {
      if i < |rest| {
        assert b[i] == a[i];
      } else {
        var j :| 0 <= j < |current.args| && v in TermVars(current.args[j]);
        assert b[|rest| + j] == current.args[j];
      }
    }
    if i :| 0 <= i < |b| && v in TermVars(b[i]) {
      if i < |rest| { assert a[i] == b[i]; } else { assert a[|rest|] == current; }
    }
  }

  // ----- one comparison

  function Product(a: set<Term>, b: set<Term>): set<Pair> { set x, y | x in a && y in b :: (x, y) }

  lemma {:induction false} RowCard(x: Term, b: set<Term>)
    ensures |Product({x}, b)| == |b|
  {
    if b == {} {
      assert Product({x}, b) == {};
    } else {
      var y :| y in b;
      RowCard(x, b - {y});
      assert Product({x}, b) == Product({x}, b - {y}) + {(x, y)};
    }
  }

  lemma RowStep(n: nat, m: nat)
    ensures n * m + m == (n + 1) * m
  {
  }

  lemma ProductSplit(a: set<Term>, b: set<Term>, x: Term)
    requires x in a
    ensures Product(a, b) == Product(a - {x}, b) + Product({x}, b)
    ensures Product(a - {x}, b) !! Product({x}, b)
  {
  }

  lemma {:induction false} ProductCard(a: set<Term>, b: set<Term>)
    ensures |Product(a, b)| == |a| * |b|
  {
    if a == {} {
      assert Product(a, b) == {};
    } else {
      var x :| x in a;
      var rest := a - {x};
      ProductCard(rest, b);
      RowCard(x, b);
      ProductSplit(a, b, x);
      RowStep(|rest|, |b|);
      assert |a| == |rest| + 1;
    }
  }

  function Space(s: Term, t: Term): set<Pair> { Pairs(s, t) + Pairs(t, s) }

  lemma UnionCard(a: set<Pair>, b: set<Pair>)
    ensures |a + b| <= |a| + |b|
  {
  }

  lemma Twice(x: nat, y: nat)
    ensures 2 * x * y == x * y + y * x
  {
  }

  lemma SpaceCard(s: Term, t: Term)
    ensures |Space(s, t)| <= 2 * |Subterms(s)| * |Subterms(t)|
  {
    var a, b := Subterms(s), Subterms(t);
    ProductCard(a, b);
    ProductCard(b, a);
    assert Pairs(s, t) == Product(a, b) && Pairs(t, s) == Product(b, a);
    UnionCard(Product(a, b), Product(b, a));
    Twice(|a|, |b|);
  }

  lemma SpaceClosed(s: Term, t: Term)
    ensures ClosedSpace(Space(s, t)) && (s, t) in Space(s, t) && (t, s) in Space(s, t)
    ensures forall p :: p in Space(s, t) ==> Measure(p) <= TermSize(s) + TermSize(t)
  {
    SelfSubterm(s); SelfSubterm(t);
    forall p | p in Space(s, t)
      ensures StepsInside(p, Space(s, t)) && Measure(p) <= TermSize(s) + TermSize(t)
    {
      SelfSubterm(p.0); SelfSubterm(p.1);
      var a, b := if p in Pairs(s, t) then s else t, if p in Pairs(s, t) then t else s;
      SubtermsTrans(a, p.0);
      SubtermsTrans(b, p.1);
    }
  }

  /** A budget that always suffices. */
  function Enough(s: Term, t: Term): nat { 2 + 3 * (TermSize(s) + TermSize(t)) * |Space(s, t)| }

  /** It is polynomial in the two terms. */
  lemma EnoughPolynomial(s: Term, t: Term)
    ensures Enough(s, t) <= 2 + 3 * (TermSize(s) + TermSize(t)) * (2 * |Subterms(s)| * |Subterms(t)|)
  {
    SpaceCard(s, t);
    MulMonotone(3 * (TermSize(s) + TermSize(t)), |Space(s, t)|, 2 * |Subterms(s)| * |Subterms(t)|);
  }

  lemma MulMonotone(a: nat, b: nat, c: nat)
    requires b <= c
    ensures a * b <= a * c
  {
  }

  /** The precedence table puts the head of `s` above the head of `t`. */
  predicate HigherHead(o: Lpo, s: Term, t: Term) { s.App? && t.App? && o.config.Above(s.sym, t.sym) }

  /** One memoised comparison: a definite answer is the plain one; at most two evaluations per
      pair of subterms are begun; no answer means the budget was below `Enough`. */
  method CompareMemo(o: Lpo, s: Term, t: Term, limit: nat) returns (r: Option<Comparison>, memo: LpoMemo)
    requires s != t
    ensures r.Some? ==> r.value == Compare(o, s, t)
    ensures r.Some? && HigherHead(o, s, t) ==>
      (r.value == Greater <==> forall j :: 0 <= j < |t.args| ==> Gt(o, s, t.args[j]))
    ensures r.None? ==> limit < Enough(s, t)
    ensures |memo.begun| <= memo.steps <= limit
    ensures memo.ids.Keys <= memo.begun <= Pairs(s, t) + Pairs(t, s)
    ensures |memo.begun| <= 2 * |Subterms(s)| * |Subterms(t)|
    ensures r.Some? ==> memo.begun == memo.ids.Keys
  {
    r, memo := BothDirections(o, s, t, limit);
    BegunCount(memo.begun, s, t);
    if HigherHead(o, s, t) { TableDecides(o, s, t); }
  }

  /** First one direction, then the other, over one memo and one budget. */
  method BothDirections(o: Lpo, s: Term, t: Term, limit: nat) returns (r: Option<Comparison>, memo: LpoMemo)
    requires s != t
    ensures r.Some? ==> r.value == Compare(o, s, t)
    ensures r.None? ==> limit < Enough(s, t)
    ensures |memo.begun| <= memo.steps <= limit
    ensures memo.ids.Keys <= memo.begun <= Space(s, t)
    ensures r.Some? ==> memo.begun == memo.ids.Keys
  {
    ghost var unit := 3 * (TermSize(s) + TermSize(t));
    SpaceClosed(s, t);
    memo := new LpoMemo(o, limit, unit, Space(s, t));
    var gt := memo.LpoGt(s, t);
    BegunBound(memo.begun, s, t, unit);
    if gt.None? { return None, memo; }
    assert memo.begun == memo.ids.Keys;
    if gt.value { return Some(Greater), memo; }
    var lt := memo.LpoGt(t, s);
    BegunBound(memo.begun, s, t, unit);
    if lt.None? { return None, memo; }
    assert memo.begun == memo.ids.Keys;
    return Some(if lt.value then Less else Incomparable), memo;
  }

  lemma BegunBound(begun: set<Pair>, s: Term, t: Term, unit: nat)
    requires begun <= Space(s, t)
    ensures unit * |begun| <= unit * |Space(s, t)|
  {
    SubsetSize(begun, Space(s, t));
    MulMonotone(unit, |begun|, |Space(s, t)|);
  }

  lemma BegunCount(begun: set<Pair>, s: Term, t: Term)
    requires begun <= Space(s, t)
    ensures |begun| <= 2 * |Subterms(s)| * |Subterms(t)|
  {
    SubsetSize(begun, Space(s, t));
    SpaceCard(s, t);
  }

  /** The per-thread budget: armed limit and the sticky expiry flag. */
  class Budget {
    var limit: nat
    var expired: bool

    /** `LPO::compare_id`: the result may be used only while the budget has not expired. */
    method CompareTerms(o: Lpo, s: Term, t: Term) returns (r: Comparison)
      modifies this`expired
      ensures old(expired) ==> expired
      ensures expired ==> r == Incomparable
      ensures !expired ==> r == Compare(o, s, t)
      ensures !expired && HigherHead(o, s, t) ==>
        (r == Greater <==> forall j :: 0 <= j < |t.args| ==> Gt(o, s, t.args[j]))
      ensures !old(expired) && (s == t || limit >= Enough(s, t)) ==> !expired
    {
      if HigherHead(o, s, t) { TableDecides(o, s, t); }
      if expired { return Incomparable; }
      if s == t { return Equal; }
      var answer, memo := CompareMemo(o, s, t, limit);
      if answer.None? {
        expired := true;
        return Incomparable;
      }
      return answer.value;
    }
  }
}
