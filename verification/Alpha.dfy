/** Alpha-equivalence with commutative connectives, decided by greedy matching. */
module AlphaEquivalence {
  import opened Wrappers
  import opened Fol
  import opened Substitution

  /** A bound variable is named by the depth of its binder, a free one by itself. */
  datatype TermKey = FreeVar(v: VarId) | BoundVar(level: nat) | AppKey(sym: SymbolId, args: seq<TermKey>)

  /** Formulas up to bound names and up to the order of commutative connectives. */
  datatype Key =
    | PredKey(sym: SymbolId, args: seq<TermKey>)
    | EqKey(sides: multiset<TermKey>)
    | NegKey(inner: Key)
    | AndKey(parts: multiset<Key>)
    | OrKey(parts: multiset<Key>)
    | ImpliesKey(lhs: Key, rhs: Key)
    | IffKey(directions: multiset<Key>)
    | ForallKey(body: Key)
    | ExistsKey(body: Key)
    | TrueKey
    | FalseKey

  type Levels = map<VarId, nat>

  function TermKeyOf(t: Term, levels: Levels): TermKey
    decreases t
  {
    match t
    case Var(v) => if v in levels then BoundVar(levels[v]) else FreeVar(v)
    case App(s, args) => AppKey(s, TermKeys(args, levels))
  }

  function TermKeys(ts: seq<Term>, levels: Levels): (r: seq<TermKey>)
    ensures |r| == |ts| && forall i :: 0 <= i < |ts| ==> r[i] == TermKeyOf(ts[i], levels)
    decreases ts
  {
    seq(|ts|, i requires 0 <= i < |ts| => TermKeyOf(ts[i], levels))
  }

  function AtomKey(a: Atom, levels: Levels): Key {
    match a
    case Pred(s, args) => PredKey(s, TermKeys(args, levels))
    case Eq(l, r) => EqKey(multiset{TermKeyOf(l, levels), TermKeyOf(r, levels)})
  }

  function KeyOf(f: Formula, levels: Levels, depth: nat): Key
    decreases f, 0
  {
    match f
    case AtomF(a) => AtomKey(a, levels)
    case Neg(g) => NegKey(KeyOf(g, levels, depth))
    case And(fs) => AndKey(multiset(KeysOf(fs, levels, depth)))
    case Or(fs) => OrKey(multiset(KeysOf(fs, levels, depth)))
    case Implies(a, b) => ImpliesKey(KeyOf(a, levels, depth), KeyOf(b, levels, depth))
    case Iff(a, b) => IffKey(multiset{KeyOf(a, levels, depth), KeyOf(b, levels, depth)})
    case Forall(v, b) => ForallKey(KeyOf(b, levels[v := depth], depth + 1))
    case Exists(v, b) => ExistsKey(KeyOf(b, levels[v := depth], depth + 1))
    case True => TrueKey
    case False => FalseKey
  }

  function KeysOf(fs: seq<Formula>, levels: Levels, depth: nat): (r: seq<Key>)
    ensures |r| == |fs| && forall i :: 0 <= i < |fs| ==> r[i] == KeyOf(fs[i], levels, depth)
    decreases fs, 1
  {
    seq(|fs|, i requires 0 <= i < |fs| => KeyOf(fs[i], levels, depth))
  }

  /** What `alpha_equiv` decides; being an equality of keys it is an equivalence relation. */
  predicate AlphaEquiv(a: Formula, b: Formula) { KeyOf(a, map[], 0) == KeyOf(b, map[], 0) }

  // ----- the decision procedure

  /** The keys whose positions are not marked. */
  function Rest<K>(ks: seq<K>, used: seq<bool>): multiset<K>
    requires |ks| == |used|
  {
    if ks == [] then multiset{}
    else (if used[0] then multiset{} else multiset{ks[0]}) + Rest(ks[1..], used[1..])
  }

  lemma {:induction false} RestMark<K>(ks: seq<K>, used: seq<bool>, j: nat)
    requires |ks| == |used| && j < |ks| && !used[j]
    ensures Rest(ks, used) == Rest(ks, used[j := true]) + multiset{ks[j]}
  {
    if j == 0 {
      assert used[0 := true][1..] == used[1..];
    } else {
      RestMark(ks[1..], used[1..], j - 1);
      assert used[j := true][1..] == used[1..][j - 1 := true];
    }
  }

  lemma {:induction false} RestMember<K>(ks: seq<K>, used: seq<bool>, k: K)
    requires |ks| == |used|
    ensures k in Rest(ks, used) <==> exists j :: 0 <= j < |ks| && !used[j] && ks[j] == k
  {
    if ks != [] {
      RestMember(ks[1..], used[1..], k);
      if k in Rest(ks[1..], used[1..]) {
        var j :| 0 <= j < |ks[1..]| && !used[1..][j] && ks[1..][j] == k;
        assert !used[j + 1] && ks[j + 1] == k;
      }
      if j :| 0 <= j < |ks| && !used[j] && ks[j] == k {
        if j > 0 { assert !used[1..][j - 1] && ks[1..][j - 1] == k; }
      }
    }
  }

  lemma {:induction false} RestAll<K>(ks: seq<K>, used: seq<bool>)
    requires |ks| == |used| && forall j :: 0 <= j < |used| ==> !used[j]
    ensures Rest(ks, used) == multiset(ks)
  {
    if ks != [] {
      RestAll(ks[1..], used[1..]);
      assert ks == [ks[0]] + ks[1..];
    }
  }

  lemma PairKeys<K>(a: K, b: K, c: K, d: K)
    ensures multiset{a, b} == multiset{c, d} <==> (a == c && b == d) || (a == d && b == c)
  {
    if multiset{a, b} == multiset{c, d} {
      assert a in multiset{c, d};
      assert multiset{a, b} - multiset{a} == multiset{b};
      assert multiset{c, d} - multiset{c} == multiset{d} && multiset{c, d} - multiset{d} == multiset{c};
      assert b in multiset{b};
    }
  }

  /** The matching keys so far and the unmarked keys make up the right-hand keys. */
  ghost predicate Matched<K>(xs: seq<K>, ys: seq<K>, i: nat, used: seq<bool>) {
    && i <= |xs| && |used| == |ys|
    && multiset(ys) == multiset(xs[..i]) + Rest(ys, used)
  }

  lemma MatchStarts<K>(xs: seq<K>, ys: seq<K>, used: seq<bool>)
    requires |used| == |ys| && forall j :: 0 <= j < |used| ==> !used[j]
    ensures Matched(xs, ys, 0, used)
  {
    RestAll(ys, used);
    assert multiset(xs[..0]) == multiset{};
  }

  lemma MatchStep<K>(xs: seq<K>, ys: seq<K>, i: nat, used: seq<bool>, j: nat)
    requires Matched(xs, ys, i, used) && i < |xs| && j < |ys| && !used[j] && xs[i] == ys[j]
    ensures Matched(xs, ys, i + 1, used[j := true])
  {
    RestMark(ys, used, j);
    assert xs[..i + 1] == xs[..i] + [xs[i]];
  }

  /** If no unmarked key equals `xs[i]`, no bijection exists at all: greed loses nothing. */
  lemma MatchFails<K>(xs: seq<K>, ys: seq<K>, i: nat, used: seq<bool>)
    requires Matched(xs, ys, i, used) && i < |xs|
    requires forall j :: 0 <= j < |ys| && !used[j] ==> ys[j] != xs[i]
    ensures multiset(xs) != multiset(ys)
  {
    RestMember(ys, used, xs[i]);
    assert xs == xs[..i] + ([xs[i]] + xs[i + 1..]);
    assert multiset(xs)[xs[i]] == multiset(xs[..i])[xs[i]] + 1 + multiset(xs[i + 1..])[xs[i]];
  }

  lemma MatchEnds<K>(xs: seq<K>, ys: seq<K>, used: seq<bool>)
    requires Matched(xs, ys, |xs|, used) && |xs| == |ys|
    ensures multiset(xs) == multiset(ys)
  {
    assert xs[..|xs|] == xs;
    assert |multiset(ys)| == |multiset(xs)| + |Rest(ys, used)|;
  }

  method TermEq(a: Term, b: Term, left: Levels, right: Levels) returns (r: bool)
    ensures r == (TermKeyOf(a, left) == TermKeyOf(b, right))
    decreases a
  {
    if a.Var? && b.Var? {
      if a.v in left && b.v in right { return left[a.v] == right[b.v]; }
      if a.v !in left && b.v !in right { return a.v == b.v; }
      return false;
    }
    if a.App? && b.App? {
      if a.sym != b.sym || |a.args| != |b.args| { return false; }
      r := TermsEq(a.args, b.args, left, right);
      return;
    }
    return false;
  }

  method TermsEq(ts: seq<Term>, us: seq<Term>, left: Levels, right: Levels) returns (r: bool)
    requires |ts| == |us|
    ensures r == (TermKeys(ts, left) == TermKeys(us, right))
    decreases ts
  {
    ghost var ks, ls := TermKeys(ts, left), TermKeys(us, right);
    for i := 0 to |ts|
      invariant forall k :: 0 <= k < i ==> ks[k] == ls[k]
    {
      var same := TermEq(ts[i], us[i], left, right);
      if !same {
        assert ks[i] != ls[i];
        return false;
      }
    }
    return true;
  }

  method AtomEq(a: Atom, b: Atom, left: Levels, right: Levels) returns (r: bool)
    ensures r == (AtomKey(a, left) == AtomKey(b, right))
    ensures a.Eq? && b.Eq? ==>
      var al, ar := TermKeyOf(a.left, left), TermKeyOf(a.right, left);
      var bl, br := TermKeyOf(b.left, right), TermKeyOf(b.right, right);
      r == ((al == bl && ar == br) || (al == br && ar == bl))
  {
    if a.Pred? && b.Pred? {
      if a.sym != b.sym || |a.args| != |b.args| { return false; }
      r := TermsEq(a.args, b.args, left, right);
      return;
    }
    if a.Eq? && b.Eq? {
      PairKeys(TermKeyOf(a.left, left), TermKeyOf(a.right, left), TermKeyOf(b.left, right), TermKeyOf(b.right, right));
      var ll := TermEq(a.left, b.left, left, right);
      if ll {
        var rr := TermEq(a.right, b.right, left, right);
        if rr { return true; }
      }
      var lr := TermEq(a.left, b.right, left, right);
      if !lr { return false; }
      r := TermEq(a.right, b.left, left, right);
      return;
    }
    return false;
  }

  /** Undo an insertion, given what it replaced. */
  function Restore(m: Levels, v: VarId, was: Option<nat>): Levels {
    match was
    case Some(d) => m[v := d]
    case None => m - {v}
  }

  lemma Restored(m: Levels, v: VarId, d: nat)
    ensures Restore(m[v := d], v, Get(m, v)) == m
  {
  }

  lemma IffKeys(a: Formula, left: Levels, b: Formula, right: Levels, depth: nat)
    requires a.Iff? && b.Iff?
    ensures var l1, r1 := KeyOf(a.lhs, left, depth), KeyOf(a.rhs, left, depth);
      var l2, r2 := KeyOf(b.lhs, right, depth), KeyOf(b.rhs, right, depth);
      (KeyOf(a, left, depth) == KeyOf(b, right, depth)) == ((l1 == l2 && r1 == r2) || (l1 == r2 && r1 == l2))
  {
    PairKeys(KeyOf(a.lhs, left, depth), KeyOf(a.rhs, left, depth), KeyOf(b.lhs, right, depth),
      KeyOf(b.rhs, right, depth));
  }

  /** The two scope maps and the binder depth that `formula_eq` passes along by reference. */
  class Scopes {
    var left: Levels
    var right: Levels
    var depth: nat

    constructor ()
      ensures left == map[] && right == map[] && depth == 0
    {
      left := map[];
      right := map[];
      depth := 0;
    }

    /** `formula_eq`: equality of keys; every binding it makes is undone. */
    method FormulaEq(a: Formula, b: Formula) returns (r: bool)
      modifies this
      ensures left == old(left) && right == old(right) && depth == old(depth)
      ensures r == (KeyOf(a, left, depth) == KeyOf(b, right, depth))
      decreases a, 1
    {
      if a.AtomF? && b.AtomF? {
        r := AtomEq(a.atom, b.atom, left, right);
      } else if a.Neg? && b.Neg? {
        r := FormulaEq(a.inner, b.inner);
      } else if (a.And? && b.And?) || (a.Or? && b.Or?) {
        r := ListEq(a, b.parts);
      } else if a.Iff? && b.Iff? {
        r := IffEq(a, b);
      } else if a.Implies? && b.Implies? {
        r := FormulaEq(a.lhs, b.lhs);
        if r { r := FormulaEq(a.rhs, b.rhs); }
      } else if (a.Forall? && b.Forall?) || (a.Exists? && b.Exists?) {
        r := UnderBinder(a, b);
      } else {
        r := (a.True? && b.True?) || (a.False? && b.False?);
      }
    }

    /** Either way round. */
    method IffEq(a: Formula, b: Formula) returns (r: bool)
      requires a.Iff? && b.Iff?
      modifies this
      ensures left == old(left) && right == old(right) && depth == old(depth)
      ensures r == (KeyOf(a, left, depth) == KeyOf(b, right, depth))
      decreases a, 0
    {
      IffKeys(a, left, b, right, depth);
      r := FormulaEq(a.lhs, b.lhs);
      if r { r := FormulaEq(a.rhs, b.rhs); }
      if !r {
        r := FormulaEq(a.lhs, b.rhs);
        if r { r := FormulaEq(a.rhs, b.lhs); }
      }
    }

    method UnderBinder(a: Formula, b: Formula) returns (r: bool)
      requires (a.Forall? && b.Forall?) || (a.Exists? && b.Exists?)
      modifies this
      ensures left == old(left) && right == old(right) && depth == old(depth)
      ensures r == (KeyOf(a, left, depth) == KeyOf(b, right, depth))
      decreases a, 0
    {
      var d, left0, right0 := depth, left, right;
      left, right, depth := left[a.bound := d], right[b.bound := d], depth + 1;
      r := FormulaEq(a.body, b.body);
      Restored(left0, a.bound, d);
      Restored(right0, b.bound, d);
      left := Restore(left, a.bound, Get(left0, a.bound));
      right := Restore(right, b.bound, Get(right0, b.bound));
      depth := depth - 1;
    }

    /** The scan for an unmarked part equal to `x`; `|ys|` if there is none. */
    method FindMatch(x: Formula, ys: seq<Formula>, used: array<bool>) returns (j: nat)
      requires used.Length == |ys|
      modifies this
      ensures left == old(left) && right == old(right) && depth == old(depth)
      ensures j <= |ys|
      ensures j < |ys| ==> !used[j] && KeysOf(ys, right, depth)[j] == KeyOf(x, left, depth)
      ensures forall k :: 0 <= k < j && !used[k] ==> KeysOf(ys, right, depth)[k] != KeyOf(x, left, depth)
      decreases x, 2
    {
      j := 0;
      ghost var kx, ky := KeyOf(x, left, depth), KeysOf(ys, right, depth);
      while j < |ys|
        invariant j <= |ys|
        invariant left == old(left) && right == old(right) && depth == old(depth)
        invariant forall k :: 0 <= k < j && !used[k] ==> ky[k] != kx
      {
        assert ky[j] == KeyOf(ys[j], right, depth);
        if !used[j] {
          var same := FormulaEq(x, ys[j]);
          if same { return; }
        }
        j := j + 1;
      }
    }

    /** The greedy matching of the parts of two conjunctions or two disjunctions. */
    method ListEq(a: Formula, ys: seq<Formula>) returns (r: bool)
      requires a.And? || a.Or?
      modifies this
      ensures left == old(left) && right == old(right) && depth == old(depth)
      ensures r == (multiset(KeysOf(a.parts, left, depth)) == multiset(KeysOf(ys, right, depth)))
      decreases a, 0
    {
      var xs := a.parts;
      ghost var kx, ky := KeysOf(xs, left, depth), KeysOf(ys, right, depth);
      if |xs| != |ys| {
        assert |multiset(kx)| != |multiset(ky)|;
        return false;
      }
      var used := new bool[|ys|](_ => false);
      MatchStarts(kx, ky, used[..]);
      for i := 0 to |xs|
        invariant left == old(left) && right == old(right) && depth == old(depth)
        invariant Matched(kx, ky, i, used[..])
      {
        var j := FindMatch(xs[i], ys, used);
        if j == |ys| {
          MatchFails(kx, ky, i, used[..]);
          return false;
        }
        assert ky[j] == kx[i];
        MatchStep(kx, ky, i, used[..], j);
        used[j] := true;
      }
      MatchEnds(kx, ky, used[..]);
      return true;
    }
  }

  // ----- greed finds a bijection whenever one exists

  /** `pi` pairs every part on the left with its own part on the right. */
  ghost predicate Bijection<K>(xs: seq<K>, ys: seq<K>, pi: seq<nat>) {
    && |pi| == |xs| == |ys|
    && (forall i :: 0 <= i < |pi| ==> pi[i] < |ys| && xs[i] == ys[pi[i]])
    && (forall i, j :: 0 <= i < j < |pi| ==> pi[i] != pi[j])
  }

  function Without<K>(s: seq<K>, j: nat): seq<K>
    requires j < |s|
  {
    s[..j] + s[j + 1..]
  }

  lemma WithoutCounts<K>(s: seq<K>, j: nat)
    requires j < |s|
    ensures multiset(s) == multiset(Without(s, j)) + multiset{s[j]}
  {
    assert s == s[..j] + ([s[j]] + s[j + 1..]);
  }

  function Shift(k: nat, j: nat): nat { if k < j then k else k + 1 }

  lemma {:induction false} BijectionExists<K>(xs: seq<K>, ys: seq<K>) returns (pi: seq<nat>)
    requires multiset(xs) == multiset(ys)
    ensures Bijection(xs, ys, pi)
  {
    assert |multiset(xs)| == |multiset(ys)|;
    if xs == [] {
      pi := [];
    } else {
      assert xs[0] in multiset(ys);
      var j :| 0 <= j < |ys| && ys[j] == xs[0];
      WithoutCounts(xs, 0);
      WithoutCounts(ys, j);
      assert Without(xs, 0) == xs[1..];
      assert multiset(xs[1..]) == multiset(xs) - multiset{xs[0]} == multiset(Without(ys, j));
      var rest := BijectionExists(xs[1..], Without(ys, j));
      pi := BijectionCons(xs, ys, j, rest);
    }
  }

  lemma BijectionCons<K>(xs: seq<K>, ys: seq<K>, j: nat, rest: seq<nat>) returns (pi: seq<nat>)
    requires xs != [] && j < |ys| && ys[j] == xs[0] && Bijection(xs[1..], Without(ys, j), rest)
    ensures Bijection(xs, ys, pi)
  {
    pi := [j] + seq(|rest|, k requires 0 <= k < |rest| => Shift(rest[k], j));
    forall i | 0 <= i < |pi| ensures pi[i] < |ys| && xs[i] == ys[pi[i]] {
      if i > 0 { assert xs[i] == xs[1..][i - 1] == Without(ys, j)[rest[i - 1]]; }
    }
    forall i, k | 0 <= i < k < |pi| ensures pi[i] != pi[k] {
      if i > 0 { assert rest[i - 1] != rest[k - 1]; }
    }
  }

  /** The rest of a bijection, once its first pair is taken out. */
  function Tail(pi: seq<nat>): seq<nat>
    requires pi != [] && forall k :: 0 < k < |pi| ==> pi[k] != pi[0]
  {
    seq(|pi| - 1, k requires 0 <= k < |pi| - 1 => if pi[k + 1] < pi[0] then pi[k + 1] else pi[k + 1] - 1)
  }

  lemma BijectionTail<K>(xs: seq<K>, ys: seq<K>, pi: seq<nat>)
    requires Bijection(xs, ys, pi) && xs != []
    ensures Bijection(xs[1..], Without(ys, pi[0]), Tail(pi))
  {
    var rest, ws := Tail(pi), Without(ys, pi[0]);
    forall i | 0 <= i < |rest| ensures rest[i] < |ws| && xs[1..][i] == ws[rest[i]] {
      assert pi[i + 1] != pi[0] && xs[i + 1] == ys[pi[i + 1]];
    }
    forall i, j | 0 <= i < j < |rest| ensures rest[i] != rest[j] {
      assert pi[i + 1] != pi[j + 1] && pi[i + 1] != pi[0] && pi[j + 1] != pi[0];
    }
  }

  lemma {:induction false} BijectionCounts<K>(xs: seq<K>, ys: seq<K>, pi: seq<nat>)
    requires Bijection(xs, ys, pi)
    ensures multiset(xs) == multiset(ys)
    decreases |xs|
  {
    if xs != [] {
      BijectionTail(xs, ys, pi);
      BijectionCounts(xs[1..], Without(ys, pi[0]), Tail(pi));
      WithoutCounts(xs, 0);
      WithoutCounts(ys, pi[0]);
      assert Without(xs, 0) == xs[1..];
    }
  }

  ghost predicate Pairable<K>(xs: seq<K>, ys: seq<K>) { exists pi: seq<nat> :: Bijection(xs, ys, pi) }

  lemma PairableIff<K>(xs: seq<K>, ys: seq<K>)
    ensures multiset(xs) == multiset(ys) <==> Pairable(xs, ys)
  {
    if multiset(xs) == multiset(ys) { var pi := BijectionExists(xs, ys); }
    if pi: seq<nat> :| Bijection(xs, ys, pi) { BijectionCounts(xs, ys, pi); }
  }

  /** Two conjunctions are equivalent exactly when some bijection pairs equivalent parts. */
  lemma AndMatching(xs: seq<Formula>, left: Levels, ys: seq<Formula>, right: Levels, depth: nat)
    ensures KeyOf(And(xs), left, depth) == KeyOf(And(ys), right, depth) <==>
      Pairable(KeysOf(xs, left, depth), KeysOf(ys, right, depth))
  {
    var kx, ky := KeysOf(xs, left, depth), KeysOf(ys, right, depth);
    PairableIff(kx, ky);
    assert KeyOf(And(xs), left, depth) == AndKey(multiset(kx));
    assert KeyOf(And(ys), right, depth) == AndKey(multiset(ky));
  }

  // ----- bound names do not matter

  /** `l1` at a variable of `vars` is `l2` at its renamed form. */
  ghost predicate RenamedLevels(l1: Levels, l2: Levels, v: VarId, w: VarId, vars: set<VarId>) {
    forall x :: x in vars ==> Get(l2, if x == v then w else x) == Get(l1, x) && (x == v ==> v in l1)
  }

  lemma {:induction false} TermKeyRenamed(t: Term, v: VarId, w: VarId, l1: Levels, l2: Levels)
    requires RenamedLevels(l1, l2, v, w, TermVars(t))
    ensures TermKeyOf(RenameTerm(t, v, w), l2) == TermKeyOf(t, l1)
    decreases t
  {
    if t.Var? {
      assert t.v in TermVars(t);
    } else {
      var us := RenameTerm(t, v, w).args;
      forall i | 0 <= i < |t.args| ensures TermKeyOf(us[i], l2) == TermKeyOf(t.args[i], l1) {
        TermKeyRenamed(t.args[i], v, w, l1, l2);
      }
      assert TermKeys(us, l2) == TermKeys(t.args, l1);
    }
  }

  lemma AtomKeyRenamed(a: Atom, v: VarId, w: VarId, l1: Levels, l2: Levels)
    requires RenamedLevels(l1, l2, v, w, AtomVars(a))
    ensures AtomKey(RenameAtom(a, v, w), l2) == AtomKey(a, l1)
  {
    match a
    case Pred(_, args) =>
      var us := RenameAtom(a, v, w).args;
      forall i | 0 <= i < |args| ensures TermKeyOf(us[i], l2) == TermKeyOf(args[i], l1) {
        TermKeyRenamed(args[i], v, w, l1, l2);
      }
      assert TermKeys(us, l2) == TermKeys(args, l1);
    case Eq(l, r) =>
      TermKeyRenamed(l, v, w, l1, l2);
      TermKeyRenamed(r, v, w, l1, l2);
  }

  /** A renaming in which the old name is not met changes nothing but the scope map. */
  lemma {:induction false} KeyRenamed(f: Formula, v: VarId, w: VarId, l1: Levels, l2: Levels, depth: nat)
    requires RenamedLevels(l1, l2, v, w, FreeVars(f)) && w !in BoundVars(f)
    ensures KeyOf(RenameVar(f, v, w), l2, depth) == KeyOf(f, l1, depth)
    decreases f, 1
  {
    match f
    case AtomF(a) => AtomKeyRenamed(a, v, w, l1, l2);
    case Neg(g) => KeyRenamed(g, v, w, l1, l2, depth);
    case And(fs) => KeysRenamed(fs, v, w, l1, l2, depth);
    case Or(fs) => KeysRenamed(fs, v, w, l1, l2, depth);
    case Implies(a, b) =>
      KeyRenamed(a, v, w, l1, l2, depth);
      KeyRenamed(b, v, w, l1, l2, depth);
    case Iff(a, b) =>
      KeyRenamed(a, v, w, l1, l2, depth);
      KeyRenamed(b, v, w, l1, l2, depth);
    case Forall(u, b) => BinderRenamed(u, b, v, w, l1, l2, depth);
    case Exists(u, b) => BinderRenamed(u, b, v, w, l1, l2, depth);
    case True =>
    case False =>
  }

  lemma KeysCons(f: Formula, fs: seq<Formula>, levels: Levels, depth: nat)
    ensures KeysOf([f] + fs, levels, depth) == [KeyOf(f, levels, depth)] + KeysOf(fs, levels, depth)
  {
  }

  lemma {:induction false} KeysRenamed(fs: seq<Formula>, v: VarId, w: VarId, l1: Levels, l2: Levels, depth: nat)
    requires RenamedLevels(l1, l2, v, w, FreeVars(And(fs))) && w !in BoundVars(And(fs))
    ensures KeysOf(RenameVars(fs, v, w), l2, depth) == KeysOf(fs, l1, depth)
    decreases fs, 2
  {
    if fs != [] {
      assert fs == [fs[0]] + fs[1..];
      assert RenameVars(fs, v, w) == [RenameVar(fs[0], v, w)] + RenameVars(fs[1..], v, w);
      assert forall x :: x in FreeVars(fs[0]) || x in FreeVars(And(fs[1..])) ==> x in FreeVars(And(fs));
      assert forall x :: x in BoundVars(fs[0]) || x in BoundVars(And(fs[1..])) ==> x in BoundVars(And(fs));
      KeyRenamed(fs[0], v, w, l1, l2, depth);
      KeysRenamed(fs[1..], v, w, l1, l2, depth);
      KeysCons(fs[0], fs[1..], l1, depth);
      KeysCons(RenameVar(fs[0], v, w), RenameVars(fs[1..], v, w), l2, depth);
    }
  }

  lemma {:induction false} BinderRenamed(u: VarId, b: Formula, v: VarId, w: VarId, l1: Levels, l2: Levels, depth: nat)
    requires RenamedLevels(l1, l2, v, w, FreeVars(b) - {u}) && w !in BoundVars(b) && w != u
    ensures KeyOf(if u == v then b else RenameVar(b, v, w), l2[u := depth], depth + 1) ==
      KeyOf(b, l1[u := depth], depth + 1)
    decreases b, 2
  {
    var vars := FreeVars(b) - {u};
    if u == v {
      BinderAgrees(u, b, l1, l2, depth);
    } else {
      forall x | x in FreeVars(b)
        ensures Get(l2[u := depth], if x == v then w else x) == Get(l1[u := depth], x)
          && (x == v ==> v in l1[u := depth])
      {
        if x != u { assert x in vars; }
      }
      KeyRenamed(b, v, w, l1[u := depth], l2[u := depth], depth + 1);
    }
  }

  /** Only the levels of free variables matter. */
  lemma {:induction false} KeyAgrees(f: Formula, l1: Levels, l2: Levels, depth: nat)
    requires forall x :: x in FreeVars(f) ==> Get(l2, x) == Get(l1, x)
    ensures KeyOf(f, l2, depth) == KeyOf(f, l1, depth)
    decreases f, 0
  {
    match f
    case AtomF(a) => AtomKeyAgrees(a, l1, l2);
    case Neg(g) => KeyAgrees(g, l1, l2, depth);
    case And(fs) => KeysAgree(fs, l1, l2, depth);
    case Or(fs) => KeysAgree(fs, l1, l2, depth);
    case Implies(a, b) =>
      KeyAgrees(a, l1, l2, depth);
      KeyAgrees(b, l1, l2, depth);
    case Iff(a, b) =>
      KeyAgrees(a, l1, l2, depth);
      KeyAgrees(b, l1, l2, depth);
    case Forall(u, b) => BinderAgrees(u, b, l1, l2, depth);
    case Exists(u, b) => BinderAgrees(u, b, l1, l2, depth);
    case True =>
    case False =>
  }

  lemma {:induction false} BinderAgrees(u: VarId, b: Formula, l1: Levels, l2: Levels, depth: nat)
    requires forall x :: x in FreeVars(b) - {u} ==> Get(l2, x) == Get(l1, x)
    ensures KeyOf(b, l2[u := depth], depth + 1) == KeyOf(b, l1[u := depth], depth + 1)
    decreases b, 1
  {
    forall x | x in FreeVars(b) ensures Get(l2[u := depth], x) == Get(l1[u := depth], x) {
      if x != u { assert x in FreeVars(b) - {u}; }
    }
    KeyAgrees(b, l1[u := depth], l2[u := depth], depth + 1);
  }

  lemma {:induction false} KeysAgree(fs: seq<Formula>, l1: Levels, l2: Levels, depth: nat)
    requires forall x :: x in FreeVars(And(fs)) ==> Get(l2, x) == Get(l1, x)
    ensures KeysOf(fs, l2, depth) == KeysOf(fs, l1, depth)
    decreases fs, 1
  {
    forall i | 0 <= i < |fs| ensures KeyOf(fs[i], l2, depth) == KeyOf(fs[i], l1, depth) {
      assert forall x :: x in FreeVars(fs[i]) ==> x in FreeVars(And(fs));
      KeyAgrees(fs[i], l1, l2, depth);
    }
  }

  lemma {:induction false} TermKeyAgrees(t: Term, l1: Levels, l2: Levels)
    requires forall x :: x in TermVars(t) ==> Get(l2, x) == Get(l1, x)
    ensures TermKeyOf(t, l2) == TermKeyOf(t, l1)
    decreases t
  {
    if t.Var? {
      assert t.v in TermVars(t);
    } else {
      forall i | 0 <= i < |t.args| ensures TermKeyOf(t.args[i], l2) == TermKeyOf(t.args[i], l1) {
        TermKeyAgrees(t.args[i], l1, l2);
      }
      assert TermKeys(t.args, l2) == TermKeys(t.args, l1);
    }
  }

  lemma AtomKeyAgrees(a: Atom, l1: Levels, l2: Levels)
    requires forall x :: x in AtomVars(a) ==> Get(l2, x) == Get(l1, x)
    ensures AtomKey(a, l2) == AtomKey(a, l1)
  {
    match a
    case Pred(_, args) =>
      forall i | 0 <= i < |args| ensures TermKeyOf(args[i], l2) == TermKeyOf(args[i], l1) {
        TermKeyAgrees(args[i], l1, l2);
      }
      assert TermKeys(args, l2) == TermKeys(args, l1);
    case Eq(l, r) =>
      TermKeyAgrees(l, l1, l2);
      TermKeyAgrees(r, l1, l2);
  }

  /** Formulas that differ in the name of a bound variable are recognised as equivalent. */
  lemma RenamingRecognised(v: VarId, w: VarId, b: Formula, left: Levels, right: Levels, depth: nat)
    requires w !in FreeVars(b) && w !in BoundVars(b)
    requires forall x :: x in FreeVars(b) ==> Get(right, x) == Get(left, x)
    ensures KeyOf(Forall(w, RenameVar(b, v, w)), right, depth) == KeyOf(Forall(v, b), left, depth)
    ensures KeyOf(Exists(w, RenameVar(b, v, w)), right, depth) == KeyOf(Exists(v, b), left, depth)
  {
    RenamedBinder(v, w, FreeVars(b), left, right, depth);
    KeyRenamed(b, v, w, left[v := depth], right[w := depth], depth + 1);
  }

  lemma RenamedBinder(v: VarId, w: VarId, vars: set<VarId>, left: Levels, right: Levels, depth: nat)
    requires w !in vars && forall x :: x in vars ==> Get(right, x) == Get(left, x)
    ensures RenamedLevels(left[v := depth], right[w := depth], v, w, vars)
  {
  }

  // ----- soundness: equivalent formulas mean the same

  ghost function TermKeyVal<D>(m: Structure<D>, e: Env<D>, bound: nat -> D, k: TermKey): D
    decreases k
  {
    match k
    case FreeVar(v) => e(v)
    case BoundVar(n) => bound(n)
    case AppKey(s, args) => m.fun(s, TermKeyVals(m, e, bound, args))
  }

  ghost function TermKeyVals<D>(m: Structure<D>, e: Env<D>, bound: nat -> D, ks: seq<TermKey>): seq<D>
    decreases ks
  {
    seq(|ks|, i requires 0 <= i < |ks| => TermKeyVal(m, e, bound, ks[i]))
  }

  ghost function Bind<D>(bound: nat -> D, n: nat, d: D): nat -> D { (k: nat) => if k == n then d else bound(k) }

  ghost predicate KeyHolds<D(!new)>(m: Structure<D>, e: Env<D>, bound: nat -> D, depth: nat, k: Key)
    decreases k
  {
    match k
    case PredKey(s, args) => m.pred(s, TermKeyVals(m, e, bound, args))
    case EqKey(sides) =>
      forall x, y :: x in sides && y in sides ==> TermKeyVal(m, e, bound, x) == TermKeyVal(m, e, bound, y)
    case NegKey(g) => !KeyHolds(m, e, bound, depth, g)
    case AndKey(parts) => forall p :: p in parts ==> KeyHolds(m, e, bound, depth, p)
    case OrKey(parts) => exists p :: p in parts && KeyHolds(m, e, bound, depth, p)
    case ImpliesKey(a, b) => KeyHolds(m, e, bound, depth, a) ==> KeyHolds(m, e, bound, depth, b)
    case IffKey(sides) =>
      forall x, y :: x in sides && y in sides ==> KeyHolds(m, e, bound, depth, x) == KeyHolds(m, e, bound, depth, y)
    case ForallKey(b) => forall d: D :: KeyHolds(m, e, Bind(bound, depth, d), depth + 1, b)
    case ExistsKey(b) => exists d: D :: KeyHolds(m, e, Bind(bound, depth, d), depth + 1, b)
    case TrueKey => true
    case FalseKey => false
  }

  /** The assignment a scope map describes: bound variables by level, free ones by `e`. */
  ghost predicate Reads<D(!new)>(env: Env<D>, e: Env<D>, bound: nat -> D, levels: Levels, depth: nat) {
    forall v :: if v in levels then levels[v] < depth && env(v) == bound(levels[v]) else env(v) == e(v)
  }

  lemma {:induction false} TermKeyMeans<D(!new)>(m: Structure<D>, env: Env<D>, e: Env<D>, bound: nat -> D,
                                          levels: Levels, depth: nat, t: Term)
    requires Reads(env, e, bound, levels, depth)
    ensures TermKeyVal(m, e, bound, TermKeyOf(t, levels)) == Val(m, env, t)
    decreases t
  {
    if t.App? { TermKeysMean(m, env, e, bound, levels, depth, t.args); }
  }

  lemma {:induction false} TermKeysMean<D(!new)>(m: Structure<D>, env: Env<D>, e: Env<D>, bound: nat -> D,
                                          levels: Levels, depth: nat, ts: seq<Term>)
    requires Reads(env, e, bound, levels, depth)
    ensures TermKeyVals(m, e, bound, TermKeys(ts, levels)) == Vals(m, env, ts)
    decreases ts
  {
    forall i | 0 <= i < |ts| ensures TermKeyVal(m, e, bound, TermKeys(ts, levels)[i]) == Val(m, env, ts[i]) {
      TermKeyMeans(m, env, e, bound, levels, depth, ts[i]);
    }
  }

  lemma AtomKeyMeans<D(!new)>(m: Structure<D>, env: Env<D>, e: Env<D>, bound: nat -> D, levels: Levels, depth: nat,
                       a: Atom)
    requires Reads(env, e, bound, levels, depth)
    ensures KeyHolds(m, e, bound, depth, AtomKey(a, levels)) == AtomHolds(m, env, a)
  {
    match a
    case Pred(_, args) => TermKeysMean(m, env, e, bound, levels, depth, args);
    case Eq(l, r) =>
      TermKeyMeans(m, env, e, bound, levels, depth, l);
      TermKeyMeans(m, env, e, bound, levels, depth, r);
      var x, y := TermKeyOf(l, levels), TermKeyOf(r, levels);
      assert x in multiset{x, y} && y in multiset{x, y};
  }

  lemma IffKeyMeans<D(!new)>(m: Structure<D>, e: Env<D>, bound: nat -> D, depth: nat, a: Key, b: Key)
    ensures KeyHolds(m, e, bound, depth, IffKey(multiset{a, b})) ==
      (KeyHolds(m, e, bound, depth, a) == KeyHolds(m, e, bound, depth, b))
  {
    assert a in multiset{a, b} && b in multiset{a, b};
  }

  /** A formula means what its key means, shadowed binders included. */
  lemma {:induction false} KeyMeans<D(!new)>(m: Structure<D>, env: Env<D>, e: Env<D>, bound: nat -> D, levels: Levels,
                                      depth: nat, f: Formula)
    requires Reads(env, e, bound, levels, depth)
    ensures KeyHolds(m, e, bound, depth, KeyOf(f, levels, depth)) == Holds(m, env, f)
    decreases f, 0
  {
    match f
    case AtomF(a) => AtomKeyMeans(m, env, e, bound, levels, depth, a);
    case Neg(g) => KeyMeans(m, env, e, bound, levels, depth, g);
    case And(fs) => KeysMean(m, env, e, bound, levels, depth, fs);
    case Or(fs) => KeysMean(m, env, e, bound, levels, depth, fs);
    case Implies(a, b) =>
      KeyMeans(m, env, e, bound, levels, depth, a);
      KeyMeans(m, env, e, bound, levels, depth, b);
    case Iff(a, b) =>
      KeyMeans(m, env, e, bound, levels, depth, a);
      KeyMeans(m, env, e, bound, levels, depth, b);
      IffKeyMeans(m, e, bound, depth, KeyOf(a, levels, depth), KeyOf(b, levels, depth));
    case Forall(v, b) => BinderMeans(m, env, e, bound, levels, depth, v, b);
    case Exists(v, b) => BinderMeans(m, env, e, bound, levels, depth, v, b);
    case True =>
    case False =>
  }

  lemma {:induction false} KeysMean<D(!new)>(m: Structure<D>, env: Env<D>, e: Env<D>, bound: nat -> D, levels: Levels,
                                      depth: nat, fs: seq<Formula>)
    requires Reads(env, e, bound, levels, depth)
    ensures var parts := multiset(KeysOf(fs, levels, depth));
      && KeyHolds(m, e, bound, depth, AndKey(parts)) == Holds(m, env, And(fs))
      && KeyHolds(m, e, bound, depth, OrKey(parts)) == Holds(m, env, Or(fs))
    decreases fs, 1
  {
    var ks := KeysOf(fs, levels, depth);
    forall i | 0 <= i < |fs| ensures KeyHolds(m, e, bound, depth, ks[i]) == Holds(m, env, fs[i]) {
      KeyMeans(m, env, e, bound, levels, depth, fs[i]);
    }
    ListKeysHold(m, e, bound, depth, ks);
  }

  lemma ListKeysHold<D(!new)>(m: Structure<D>, e: Env<D>, bound: nat -> D, depth: nat, ks: seq<Key>)
    ensures KeyHolds(m, e, bound, depth, AndKey(multiset(ks))) <==>
      forall i :: 0 <= i < |ks| ==> KeyHolds(m, e, bound, depth, ks[i])
    ensures KeyHolds(m, e, bound, depth, OrKey(multiset(ks))) <==>
      exists i :: 0 <= i < |ks| && KeyHolds(m, e, bound, depth, ks[i])
  {
    assert forall i :: 0 <= i < |ks| ==> ks[i] in multiset(ks);
    assert forall k :: k in multiset(ks) ==> k in ks;
  }

  lemma {:induction false} BinderMeans<D(!new)>(m: Structure<D>, env: Env<D>, e: Env<D>, bound: nat -> D,
                                         levels: Levels, depth: nat, v: VarId, b: Formula)
    requires Reads(env, e, bound, levels, depth)
    ensures forall d: D ::
      var key := KeyOf(b, levels[v := depth], depth + 1);
      KeyHolds(m, e, Bind(bound, depth, d), depth + 1, key) == Holds(m, Upd(env, v, d), b)
    decreases b, 1
  {
    forall d: D
      ensures KeyHolds(m, e, Bind(bound, depth, d), depth + 1, KeyOf(b, levels[v := depth], depth + 1)) ==
        Holds(m, Upd(env, v, d), b)
    {
      KeyMeans(m, Upd(env, v, d), e, Bind(bound, depth, d), levels[v := depth], depth + 1, b);
    }
  }

  /** Alpha-equivalent formulas have the same truth value in every structure and assignment. */
  lemma AlphaSound<D(!new)>(m: Structure<D>, e: Env<D>, a: Formula, b: Formula)
    requires AlphaEquiv(a, b)
    ensures Holds(m, e, a) == Holds(m, e, b)
  {
    var bound: nat -> D := (n: nat) => e(n);
    KeyMeans(m, e, e, bound, map[], 0, a);
    KeyMeans(m, e, e, bound, map[], 0, b);
  }
}
