/** The lexicographic path ordering without AC symbols: its plain recursion and its laws. */
module PathOrder {
  import opened Fol
  import opened TermOrder

  /** `longerWins` is the tie-break of the id form on argument lists that agree up to the
      shorter length; the owned-term form never lets the longer list win. */
  datatype Lpo = Lpo(config: SymbolConfig, longerWins: bool)

  /** `lpo_gt` without memo and budget. */
  predicate Gt(o: Lpo, s: Term, t: Term)
    decreases s, t
  {
    if t.Var? then s != t && t.v in TermVars(s)
    else if s.Var? then false
    else
      || (exists i :: 0 <= i < |s.args| && (s.args[i] == t || Gt(o, s.args[i], t)))
      || ((forall j :: 0 <= j < |t.args| ==> Gt(o, s, t.args[j])) && HeadGt(o, s, t))
  }

  /** Decision by precedence, then by the first differing argument. */
  predicate HeadGt(o: Lpo, s: Term, t: Term)
    requires s.App? && t.App?
    decreases s, t, 0
  {
    || o.config.Prec(s.sym) > o.config.Prec(t.sym)
    || (o.config.Prec(s.sym) == o.config.Prec(t.sym) && LexGt(o, s.args, t.args))
  }

  predicate LexGt(o: Lpo, ss: seq<Term>, ts: seq<Term>)
    decreases ss
  {
    if ss == [] || ts == [] then o.longerWins && |ss| > |ts|
    else if ss[0] == ts[0] then LexGt(o, ss[1..], ts[1..])
    else Gt(o, ss[0], ts[0])
  }

  function Compare(o: Lpo, s: Term, t: Term): Comparison {
    if s == t then Equal
    else if Gt(o, s, t) then Greater
    else if Gt(o, t, s) then Less
    else Incomparable
  }

  // ----- subterm property and variable condition

  /** A greater term contains every variable of the smaller one. */
  lemma {:induction false} GtVars(o: Lpo, s: Term, t: Term)
    requires Gt(o, s, t)
    ensures s.App? && TermVars(t) <= TermVars(s)
    decreases s, t
  {
    if t.App? {
      if i :| 0 <= i < |s.args| && (s.args[i] == t || Gt(o, s.args[i], t)) {
        if s.args[i] != t { GtVars(o, s.args[i], t); }
      } else {
        forall j | 0 <= j < |t.args| ensures TermVars(t.args[j]) <= TermVars(s) { GtVars(o, s, t.args[j]); }
      }
    }
  }

  /** A term is greater than whatever an argument equals or exceeds. */
  lemma GtByArg(o: Lpo, s: Term, i: nat, t: Term)
    requires s.App? && i < |s.args| && (s.args[i] == t || Gt(o, s.args[i], t))
    ensures Gt(o, s, t)
  {
    if t.Var? {
      if s.args[i] != t { GtVars(o, s.args[i], t); }
      assert t.v in TermVars(s.args[i]);
    }
  }

  /** The subterm property, for subterms at any depth. */
  lemma {:induction false} SubtermProperty(o: Lpo, s: Term, path: seq<nat>)
    requires path != [] && ValidPath(s, path)
    ensures Gt(o, s, At(s, path))
    decreases |path|
  {
    if |path| == 1 {
      assert At(s, path) == s.args[path[0]];
    } else {
      SubtermProperty(o, s.args[path[0]], path[1..]);
    }
    GtByArg(o, s, path[0], At(s, path));
  }

  predicate ValidPath(t: Term, path: seq<nat>)
    decreases |path|
  {
    path == [] || (t.App? && path[0] < |t.args| && ValidPath(t.args[path[0]], path[1..]))
  }

  function At(t: Term, path: seq<nat>): Term
    requires ValidPath(t, path)
    decreases |path|
  {
    if path == [] then t else At(t.args[path[0]], path[1..])
  }

  /** Whatever exceeds a term exceeds its arguments. */
  lemma {:induction false} GtArgs(o: Lpo, s: Term, t: Term, j: nat)
    requires Gt(o, s, t) && t.App? && j < |t.args|
    ensures Gt(o, s, t.args[j])
    decreases s
  {
    if i :| 0 <= i < |s.args| && (s.args[i] == t || Gt(o, s.args[i], t)) {
      if s.args[i] == t { GtByArg(o, t, j, t.args[j]); } else { GtArgs(o, s.args[i], t, j); }
      GtByArg(o, s, i, t.args[j]);
    }
  }

  // ----- strict partial order

  lemma {:induction false} LexIrreflexive(o: Lpo, ss: seq<Term>)
    ensures !LexGt(o, ss, ss)
  {
    if ss != [] { LexIrreflexive(o, ss[1..]); }
  }

  lemma {:induction false} Irreflexive(o: Lpo, s: Term)
    ensures !Gt(o, s, s)
    decreases s
  {
    if Gt(o, s, s) {
      if i :| 0 <= i < |s.args| && (s.args[i] == s || Gt(o, s.args[i], s)) {
        ArgSmaller(s.args, i);
        GtArgs(o, s.args[i], s, i);
        Irreflexive(o, s.args[i]);
      } else {
        LexIrreflexive(o, s.args);
      }
    }
  }

  lemma {:induction false} Transitive(o: Lpo, s: Term, t: Term, u: Term)
    requires Gt(o, s, t) && Gt(o, t, u)
    ensures Gt(o, s, u)
    decreases TermSize(s) + TermSize(t) + TermSize(u), 0
  {
    GtVars(o, s, t);
    GtVars(o, t, u);
    if u.App? {
      if i :| 0 <= i < |s.args| && (s.args[i] == t || Gt(o, s.args[i], t)) {
        ArgSmaller(s.args, i);
        if s.args[i] != t { Transitive(o, s.args[i], t, u); }
        GtByArg(o, s, i, u);
      } else if j :| 0 <= j < |t.args| && (t.args[j] == u || Gt(o, t.args[j], u)) {
        ArgSmaller(t.args, j);
        if t.args[j] != u { Transitive(o, s, t.args[j], u); }
      } else {
        forall k | 0 <= k < |u.args| ensures Gt(o, s, u.args[k]) {
          ArgSmaller(u.args, k);
          Transitive(o, s, t, u.args[k]);
        }
        if o.config.Prec(s.sym) == o.config.Prec(t.sym) == o.config.Prec(u.sym) {
          LexTransitive(o, s.args, t.args, u.args);
        }
        assert HeadGt(o, s, u);
      }
    }
  }

  lemma {:induction false} LexTransitive(o: Lpo, ss: seq<Term>, ts: seq<Term>, us: seq<Term>)
    requires LexGt(o, ss, ts) && LexGt(o, ts, us)
    ensures LexGt(o, ss, us)
    decreases TermsSize(ss) + TermsSize(ts) + TermsSize(us), 1
  {
    if ss != [] && ts != [] && us != [] {
      if ss[0] == ts[0] == us[0] {
        LexTransitive(o, ss[1..], ts[1..], us[1..]);
      } else if ss[0] != ts[0] && ts[0] != us[0] {
        ArgSmaller(ss, 0); ArgSmaller(ts, 0); ArgSmaller(us, 0);
        Transitive(o, ss[0], ts[0], us[0]);
        Irreflexive(o, ss[0]);
      }
    }
  }

  /** The four-way result is antisymmetric. */
  lemma CompareFlips(o: Lpo, s: Term, t: Term)
    ensures Compare(o, s, t) == Greater <==> Compare(o, t, s) == Less
    ensures Compare(o, s, t) == Equal <==> s == t
  {
    if Gt(o, s, t) && Gt(o, t, s) {
      Transitive(o, s, t, s);
      Irreflexive(o, s);
    }
  }

  // ----- what the precedence table decides

  /** Head symbols on different levels of the table decide: the term with the higher head is
      greater exactly when it exceeds all arguments of the other, and the lower one only through
      an argument. */
  lemma TableDecides(o: Lpo, s: Term, t: Term)
    requires s.App? && t.App? && o.config.Above(s.sym, t.sym)
    ensures Gt(o, s, t) <==> forall j :: 0 <= j < |t.args| ==> Gt(o, s, t.args[j])
    ensures Gt(o, t, s) <==> exists j :: 0 <= j < |t.args| && (t.args[j] == s || Gt(o, t.args[j], s))
    ensures Compare(o, s, t) == Greater <==> forall j :: 0 <= j < |t.args| ==> Gt(o, s, t.args[j])
  {
    assert HeadGt(o, s, t) && !HeadGt(o, t, s);
    if Gt(o, s, t) { forall j | 0 <= j < |t.args| ensures Gt(o, s, t.args[j]) { GtArgs(o, s, t, j); } }
    Irreflexive(o, s);
  }

  /** Heads on the same level leave it to the first differing argument. */
  lemma TableTies(o: Lpo, s: Term, t: Term)
    requires s.App? && t.App? && !o.config.Above(s.sym, t.sym) && !o.config.Above(t.sym, s.sym)
    ensures Gt(o, s, t) <==>
      || (exists i :: 0 <= i < |s.args| && (s.args[i] == t || Gt(o, s.args[i], t)))
      || ((forall j :: 0 <= j < |t.args| ==> Gt(o, s, t.args[j])) && FirstDifference(o, s.args, t.args))
  {
    LexExact(o, s.args, t.args);
    assert HeadGt(o, s, t) == LexGt(o, s.args, t.args);
  }

  /** The lists agree up to `k`, and there the first one has the greater term, or the second one
      ends and length counts. */
  predicate DiffersAt(o: Lpo, ss: seq<Term>, ts: seq<Term>, k: nat) {
    && k < |ss| && k <= |ts| && ss[..k] == ts[..k]
    && (if k < |ts| then ss[k] != ts[k] && Gt(o, ss[k], ts[k]) else o.longerWins)
  }

  ghost predicate FirstDifference(o: Lpo, ss: seq<Term>, ts: seq<Term>) {
    exists k: nat :: DiffersAt(o, ss, ts, k)
  }

  lemma SameFirst(o: Lpo, ss: seq<Term>, ts: seq<Term>, k: nat)
    requires DiffersAt(o, ss, ts, k)
    ensures k > 0 ==> ts != [] && ss[0] == ts[0]
  {
    if k > 0 { assert ss[..k][0] == ts[..k][0]; }
  }

  lemma {:induction false} LexExact(o: Lpo, ss: seq<Term>, ts: seq<Term>)
    ensures LexGt(o, ss, ts) <==> FirstDifference(o, ss, ts)
  {
    if ss != [] && ts != [] && ss[0] == ts[0] {
      LexExact(o, ss[1..], ts[1..]);
      if k: nat :| DiffersAt(o, ss[1..], ts[1..], k) {
        assert ss[..k + 1] == [ss[0]] + ss[1..][..k] && ts[..k + 1] == [ts[0]] + ts[1..][..k];
        assert DiffersAt(o, ss, ts, k + 1);
      }
      if k: nat :| DiffersAt(o, ss, ts, k) {
        assert k > 0;
        assert ss[1..][..k - 1] == ss[..k][1..] == ts[..k][1..] == ts[1..][..k - 1];
        assert DiffersAt(o, ss[1..], ts[1..], k - 1);
      }
    } else if ss != [] {
      if LexGt(o, ss, ts) { assert DiffersAt(o, ss, ts, 0); }
      if k: nat :| DiffersAt(o, ss, ts, k) { SameFirst(o, ss, ts, k); }
    }
  }

  // ----- closure under contexts

  lemma {:induction false} LexContext(o: Lpo, args: seq<Term>, i: nat, s: Term, t: Term)
    requires i < |args| && Gt(o, s, t)
    ensures LexGt(o, args[i := s], args[i := t])
    decreases i
  {
    var ss, ts := args[i := s], args[i := t];
    if i == 0 {
      Irreflexive(o, s);
    } else {
      assert ss[1..] == args[1..][i - 1 := s] && ts[1..] == args[1..][i - 1 := t];
      LexContext(o, args[1..], i - 1, s, t);
    }
  }

  lemma ContextClosed(o: Lpo, f: SymbolId, args: seq<Term>, i: nat, s: Term, t: Term)
    requires i < |args| && Gt(o, s, t)
    ensures Gt(o, App(f, args[i := s]), App(f, args[i := t]))
  {
    var a, b := App(f, args[i := s]), App(f, args[i := t]);
    forall j | 0 <= j < |args| ensures Gt(o, a, b.args[j]) { GtByArg(o, a, j, b.args[j]); }
    LexContext(o, args, i, s, t);
    assert HeadGt(o, a, b);
  }

  // ----- stability under substitution

  lemma {:induction false} VarInstance(o: Lpo, sigma: VarId -> Term, s: Term, v: VarId)
    requires v in TermVars(s)
    ensures Instance(sigma, s) == sigma(v) || Gt(o, Instance(sigma, s), sigma(v))
    ensures s.App? ==> Gt(o, Instance(sigma, s), sigma(v))
    decreases s
  {
    if s.App? {
      var i :| 0 <= i < |s.args| && v in TermVars(s.args[i]);
      VarInstance(o, sigma, s.args[i], v);
      GtByArg(o, Instance(sigma, s), i, sigma(v));
    }
  }

  lemma {:induction false} Stable(o: Lpo, sigma: VarId -> Term, s: Term, t: Term)
    requires Gt(o, s, t)
    ensures Gt(o, Instance(sigma, s), Instance(sigma, t))
    decreases s, t
  {
    GtVars(o, s, t);
    var a, b := Instance(sigma, s), Instance(sigma, t);
    if t.Var? {
      VarInstance(o, sigma, s, t.v);
    } else if i :| 0 <= i < |s.args| && (s.args[i] == t || Gt(o, s.args[i], t)) {
      if s.args[i] != t { Stable(o, sigma, s.args[i], t); }
      GtByArg(o, a, i, b);
    } else {
      forall j | 0 <= j < |t.args| ensures Gt(o, a, b.args[j]) { Stable(o, sigma, s, t.args[j]); }
      if o.config.Prec(s.sym) == o.config.Prec(t.sym) { LexStable(o, sigma, s.args, t.args); }
      assert HeadGt(o, a, b);
    }
  }

  lemma {:induction false} LexStable(o: Lpo, sigma: VarId -> Term, ss: seq<Term>, ts: seq<Term>)
    requires LexGt(o, ss, ts)
    ensures LexGt(o, Instances(sigma, ss), Instances(sigma, ts))
    decreases ss
  {
    if ss != [] && ts != [] {
      assert Instances(sigma, ss)[1..] == Instances(sigma, ss[1..]);
      assert Instances(sigma, ts)[1..] == Instances(sigma, ts[1..]);
      if ss[0] == ts[0] {
        LexStable(o, sigma, ss[1..], ts[1..]);
      } else {
        Stable(o, sigma, ss[0], ts[0]);
        Irreflexive(o, Instance(sigma, ss[0]));
      }
    }
  }

  // ----- totality on ground terms

  lemma GroundIsApp(t: Term)
    requires TermVars(t) == {}
    ensures t.App?
  {
  }

  lemma {:induction false} GroundTotal(o: Lpo, s: Term, t: Term, arity: SymbolId -> nat)
    requires o.config.Injective() && TermVars(s) == {} && TermVars(t) == {}
    requires o.longerWins || (FixedArity(s, arity) && FixedArity(t, arity))
    ensures s == t || Gt(o, s, t) || Gt(o, t, s)
    decreases TermSize(s) + TermSize(t), 0
  {
    GroundIsApp(s);
    GroundIsApp(t);
    if !Gt(o, s, t) && !Gt(o, t, s) {
      forall i | 0 <= i < |s.args| ensures Gt(o, t, s.args[i]) {
        ArgSmaller(s.args, i);
        assert TermVars(s.args[i]) <= TermVars(s);
        GroundTotal(o, s.args[i], t, arity);
        if !Gt(o, t, s.args[i]) { GtByArg(o, s, i, t); }
      }
      forall j | 0 <= j < |t.args| ensures Gt(o, s, t.args[j]) {
        ArgSmaller(t.args, j);
        assert TermVars(t.args[j]) <= TermVars(t);
        GroundTotal(o, s, t.args[j], arity);
        if !Gt(o, s, t.args[j]) { GtByArg(o, t, j, s); }
      }
      assert !HeadGt(o, s, t) && !HeadGt(o, t, s);
      assert s.sym == t.sym;
      forall i | 0 <= i < |s.args| ensures TermVars(s.args[i]) == {} { assert TermVars(s.args[i]) <= TermVars(s); }
      forall j | 0 <= j < |t.args| ensures TermVars(t.args[j]) == {} { assert TermVars(t.args[j]) <= TermVars(t); }
      LexTotal(o, s.args, t.args, arity);
    }
  }

  lemma {:induction false} LexTotal(o: Lpo, ss: seq<Term>, ts: seq<Term>, arity: SymbolId -> nat)
    requires o.config.Injective()
    requires (forall i :: 0 <= i < |ss| ==> TermVars(ss[i]) == {})
      && (forall i :: 0 <= i < |ts| ==> TermVars(ts[i]) == {})
    requires o.longerWins ||
      (|ss| == |ts| && (forall i :: 0 <= i < |ss| ==> FixedArity(ss[i], arity))
        && (forall i :: 0 <= i < |ts| ==> FixedArity(ts[i], arity)))
    ensures ss == ts || LexGt(o, ss, ts) || LexGt(o, ts, ss)
    decreases TermsSize(ss) + TermsSize(ts), 1
  {
    if ss != [] && ts != [] {
      if ss[0] == ts[0] {
        LexTotal(o, ss[1..], ts[1..], arity);
        if ss[1..] == ts[1..] { assert ss == [ss[0]] + ss[1..] && ts == [ts[0]] + ts[1..]; }
      } else {
        GroundTotal(o, ss[0], ts[0], arity);
      }
    }
  }

  /** On fixed-arity terms the id form and the owned-term form decide alike. */
  lemma {:induction false} FormsAgree(config: SymbolConfig, s: Term, t: Term, arity: SymbolId -> nat)
    requires FixedArity(s, arity) && FixedArity(t, arity) && config.Injective()
    ensures Gt(Lpo(config, true), s, t) == Gt(Lpo(config, false), s, t)
    decreases s, t
  {
    if t.App? && s.App? {
      forall i | 0 <= i < |s.args| { FormsAgree(config, s.args[i], t, arity); }
      forall j | 0 <= j < |t.args| { FormsAgree(config, s, t.args[j], arity); }
      if s.sym == t.sym { LexFormsAgree(config, s.args, t.args, arity); }
      assert HeadGt(Lpo(config, true), s, t) == HeadGt(Lpo(config, false), s, t);
    }
  }

  lemma {:induction false} LexFormsAgree(config: SymbolConfig, ss: seq<Term>, ts: seq<Term>, arity: SymbolId -> nat)
    requires |ss| == |ts| && config.Injective()
    requires forall i :: 0 <= i < |ss| ==> FixedArity(ss[i], arity) && FixedArity(ts[i], arity)
    ensures LexGt(Lpo(config, true), ss, ts) == LexGt(Lpo(config, false), ss, ts)
    decreases ss
  {
    if ss != [] && ts != [] {
      LexFormsAgree(config, ss[1..], ts[1..], arity);
      FormsAgree(config, ss[0], ts[0], arity);
    }
  }
}
