/** `rup_check`: unit propagation over listed antecedents, and what its verdict means. */
module RupCheck {
  import opened Wrappers

  type Lit = int
  type ClauseId = int
  type SatClause = seq<Lit>

  datatype Status = Satisfied | Falsified | Unit(lit: Lit) | Open

  /** Literals of `c` that are not false under `a`, with repetitions. */
  function Unassigned(c: SatClause, a: set<Lit>): (r: seq<Lit>)
    ensures forall l :: l in r <==> l in c && -l !in a
    ensures |r| == 0 <==> forall i :: 0 <= i < |c| ==> -c[i] in a
  {
    if c == [] then [] else (if -c[0] in a then [] else [c[0]]) + Unassigned(c[1..], a)
  }

  function StatusOf(c: SatClause, a: set<Lit>): Status {
    if exists l :: l in c && l in a then Satisfied
    else
      var u := Unassigned(c, a);
      if |u| == 0 then Falsified else if |u| == 1 then Unit(u[0]) else Open
  }

  datatype Round = Conflict | Missing | Done(assignment: set<Lit>, progressed: bool)

  /** One pass over the antecedents in listed order. */
  function Pass(clauses: map<ClauseId, SatClause>, a: set<Lit>, ids: seq<ClauseId>, progressed: bool): Round
    decreases ids
  {
    if ids == [] then Done(a, progressed)
    else if ids[0] !in clauses then Missing
    else match StatusOf(clauses[ids[0]], a)
      case Falsified => Conflict
      case Unit(l) => Pass(clauses, a + {l}, ids[1..], progressed || l !in a)
      case _ => Pass(clauses, a, ids[1..], progressed)
  }

  /** Literals of the antecedents that resolve. */
  function Universe(clauses: map<ClauseId, SatClause>, ids: seq<ClauseId>): set<Lit> {
    set i, l | 0 <= i < |ids| && ids[i] in clauses && l in clauses[ids[i]] :: l
  }

  lemma {:induction false} PassGrows(clauses: map<ClauseId, SatClause>, a: set<Lit>, ids: seq<ClauseId>,
                                     progressed: bool, u: set<Lit>)
    requires Universe(clauses, ids) <= u
    ensures var r := Pass(clauses, a, ids, progressed);
      r.Done? ==> a <= r.assignment <= a + u && (r.progressed ==> progressed || r.assignment > a)
    ensures var r := Pass(clauses, a, ids, progressed); r.Done? && !r.progressed ==> r.assignment == a
    decreases ids
  {
    if ids != [] && ids[0] in clauses {
      var c := clauses[ids[0]];
      assert forall l :: l in c ==> l in Universe(clauses, ids);
      forall l | l in Universe(clauses, ids[1..]) ensures l in Universe(clauses, ids) {
        var i :| 0 <= i < |ids[1..]| && ids[1..][i] in clauses && l in clauses[ids[1..][i]];
        assert ids[i + 1] == ids[1..][i];
      }
      match StatusOf(c, a) {
        case Unit(l) =>
          assert l in Unassigned(c, a);
          PassFlag(clauses, a + {l}, ids[1..]);
          PassGrows(clauses, a + {l}, ids[1..], progressed || l !in a, u);
        case Falsified =>
        case _ => PassGrows(clauses, a, ids[1..], progressed, u);
      }
    }
  }

  lemma SmallerRest(u: set<Lit>, a: set<Lit>, b: set<Lit>)
    requires a < b <= a + u
    ensures |u - b| < |u - a|
  {
    assert exists l :: l in b && l !in a by {
      if forall l :: l in b ==> l in a { assert false; }
    }
    var l :| l in b && l !in a;
    assert u - b <= u - a - {l};
    SubsetSize(u - b, u - a - {l});
  }

  /** Rounds are repeated until one learns nothing. */
  function Rounds(clauses: map<ClauseId, SatClause>, a: set<Lit>, ids: seq<ClauseId>): bool
    decreases |Universe(clauses, ids) - a|
  {
    PassGrows(clauses, a, ids, false, Universe(clauses, ids));
    match Pass(clauses, a, ids, false)
    case Conflict => true
    case Missing => false
    case Done(b, progressed) =>
      if progressed then SmallerRest(Universe(clauses, ids), a, b); Rounds(clauses, b, ids) else false
  }

  function Negated(c: SatClause): set<Lit> { set l | l in c :: -l }

  lemma NegatedHas(c: SatClause, l: Lit)
    ensures l in Negated(c) <==> -l in c
  {
    if -l in c { assert l == -(-l); }
  }

  lemma NegatedSnoc(c: SatClause, l: Lit)
    ensures Negated(c + [l]) == Negated(c) + {-l}
  {
    forall x ensures x in Negated(c + [l]) <==> x in Negated(c) + {-l} {
      NegatedHas(c + [l], x);
      NegatedHas(c, x);
    }
  }

  function Rup(clauses: map<ClauseId, SatClause>, conclusion: SatClause, ids: seq<ClauseId>): bool {
    Rounds(clauses, Negated(conclusion), ids)
  }

  // ----- the loops

  lemma {:induction false} UnassignedConcat(p: SatClause, q: SatClause, a: set<Lit>)
    ensures Unassigned(p + q, a) == Unassigned(p, a) + Unassigned(q, a)
  {
    if p == [] {
      assert p + q == q;
    } else {
      assert (p + q)[1..] == p[1..] + q;
      UnassignedConcat(p[1..], q, a);
      ConcatAssoc(if -p[0] in a then [] else [p[0]], Unassigned(p[1..], a), Unassigned(q, a));
    }
  }

  /** What the scan of `c` knows after `i` literals, given the literals met so far. */
  ghost predicate Scanned(c: SatClause, a: set<Lit>, i: nat, met: seq<Lit>, unassigned: seq<Lit>, multiple: bool) {
    && i <= |c| && met == Unassigned(c[..i], a)
    && (forall k :: 0 <= k < i ==> c[k] !in a)
    && (multiple <==> |met| >= 2)
    && |unassigned| == (if met == [] then 0 else 1)
    && (|met| == 1 ==> unassigned == met)
  }

  lemma ScanStep(c: SatClause, a: set<Lit>, i: nat, met: seq<Lit>, unassigned: seq<Lit>, multiple: bool)
    requires i < |c| && c[i] !in a && Scanned(c, a, i, met, unassigned, multiple)
    ensures -c[i] in a ==> Scanned(c, a, i + 1, met, unassigned, multiple)
    ensures -c[i] !in a ==> Scanned(c, a, i + 1, met + [c[i]], [c[i]], |unassigned| == 1)
  {
    assert c[..i + 1] == c[..i] + [c[i]];
    UnassignedConcat(c[..i], [c[i]], a);
    assert Unassigned([c[i]], a) == if -c[i] in a then [] else [c[i]];
  }

  lemma StatusAt(c: SatClause, a: set<Lit>, i: nat)
    requires i < |c| && c[i] in a
    ensures StatusOf(c, a) == Satisfied
  {
    assert c[i] in c;
  }

  lemma StatusScanned(c: SatClause, a: set<Lit>, met: seq<Lit>, unassigned: seq<Lit>, multiple: bool)
    requires Scanned(c, a, |c|, met, unassigned, multiple)
    ensures StatusOf(c, a) ==
      if multiple then Open else if |unassigned| == 1 then Unit(unassigned[0]) else Falsified
  {
    assert c[..|c|] == c;
  }

  method ClauseStatus(c: SatClause, a: set<Lit>) returns (s: Status)
    ensures s == StatusOf(c, a)
  {
    var unassigned: seq<Lit> := [];
    var multiple := false;
    ghost var met: seq<Lit> := [];
    for i := 0 to |c|
      invariant Scanned(c, a, i, met, unassigned, multiple)
    {
      var literal := c[i];
      if literal in a {
        StatusAt(c, a, i);
        return Satisfied;
      }
      ScanStep(c, a, i, met, unassigned, multiple);
      if -literal !in a {
        if |unassigned| == 1 { multiple := true; }
        unassigned := [literal];
        met := met + [literal];
      }
    }
    StatusScanned(c, a, met, unassigned, multiple);
    if c == [] { return Falsified; }
    if multiple { return Open; }
    if |unassigned| == 1 { return Unit(unassigned[0]); }
    return Falsified;
  }

  /** `rup_check`: the fixpoint loop terminates and computes `Rup`. */
  method Check(clauses: map<ClauseId, SatClause>, conclusion: SatClause, ids: seq<ClauseId>) returns (ok: bool)
    ensures ok == Rup(clauses, conclusion, ids)
  {
    var assignment: set<Lit> := {};
    for i := 0 to |conclusion|
      invariant assignment == Negated(conclusion[..i])
    {
      assert conclusion[..i + 1] == conclusion[..i] + [conclusion[i]];
      NegatedSnoc(conclusion[..i], conclusion[i]);
      assignment := assignment + {-conclusion[i]};
    }
    assert conclusion[..|conclusion|] == conclusion;
    ghost var u := Universe(clauses, ids);
    while true
      invariant Rup(clauses, conclusion, ids) == Rounds(clauses, assignment, ids)
      decreases |u - assignment|
    {
      var progressed := false;
      ghost var start := assignment;
      assert ids[0..] == ids;
      for i := 0 to |ids|
        invariant Pass(clauses, start, ids, false) == Pass(clauses, assignment, ids[i..], progressed)
      {
        assert ids[i..][1..] == ids[i + 1..];
        if ids[i] !in clauses { return false; }
        var s := ClauseStatus(clauses[ids[i]], assignment);
        if s.Falsified? { return true; }
        if s.Unit? {
          progressed := progressed || s.lit !in assignment;
          assignment := assignment + {s.lit};
        }
      }
      PassGrows(clauses, start, ids, false, u);
      if !progressed { return false; }
      SmallerRest(u, start, assignment);
    }
    return false;
  }

  // ----- what the verdict means

  /** A clause counts when nothing in it is assumed true; `whole` counts every clause. */
  ghost predicate Counts(c: SatClause, a0: set<Lit>, whole: bool) {
    whole || forall l :: l in c ==> l !in a0
  }

  /** All literals of `c` but the one at `i` are false under `s`. */
  ghost predicate OthersFalse(c: SatClause, i: nat, s: iset<Lit>) {
    forall j :: 0 <= j < |c| && j != i ==> -c[j] in s
  }

  /** `s` contains the assumptions and is closed under unit propagation. */
  ghost predicate UnitClosed(s: iset<Lit>, clauses: map<ClauseId, SatClause>, ids: set<ClauseId>, a0: set<Lit>,
                             whole: bool)
  {
    && (forall l :: l in a0 ==> l in s)
    && (forall id, i ::
         (id in ids && id in clauses && Counts(clauses[id], a0, whole) && 0 <= i < |clauses[id]|
           && OthersFalse(clauses[id], i, s))
         ==> clauses[id][i] in s)
  }

  ghost predicate AllFalse(c: SatClause, s: iset<Lit>) {
    forall j :: 0 <= j < |c| ==> -c[j] in s
  }

  ghost predicate FalsifiesOne(s: iset<Lit>, clauses: map<ClauseId, SatClause>, ids: set<ClauseId>, a0: set<Lit>,
                               whole: bool)
  {
    exists id :: id in ids && id in clauses && Counts(clauses[id], a0, whole) && AllFalse(clauses[id], s)
  }

  /** The unit-propagation closure of `a0` falsifies an antecedent: every closed set does. */
  ghost predicate ClosureRefutes(clauses: map<ClauseId, SatClause>, ids: set<ClauseId>, a0: set<Lit>, whole: bool) {
    forall s: iset<Lit> :: UnitClosed(s, clauses, ids, a0, whole) ==> FalsifiesOne(s, clauses, ids, a0, whole)
  }

  function Ids(ids: seq<ClauseId>): set<ClauseId> { set id | id in ids }

  predicate Resolves(clauses: map<ClauseId, SatClause>, ids: seq<ClauseId>) { forall id :: id in ids ==> id in clauses }

  predicate NoZero(clauses: map<ClauseId, SatClause>) { forall id :: id in clauses ==> 0 !in clauses[id] }

  /** Complementary literals are assigned together only by the assumptions. */
  ghost predicate Consistent(a: set<Lit>, a0: set<Lit>) {
    a0 <= a && forall l :: l in a && -l in a ==> l in a0 && -l in a0
  }

  /** A unit clause has one unassigned position. */
  lemma {:induction false} UnitPosition(c: SatClause, a: set<Lit>) returns (i: nat)
    requires |Unassigned(c, a)| == 1
    ensures i < |c| && c[i] == Unassigned(c, a)[0] && -c[i] !in a
    ensures forall j :: 0 <= j < |c| && j != i ==> -c[j] in a
  {
    if -c[0] in a {
      i := UnitPosition(c[1..], a);
      i := i + 1;
    } else {
      i := 0;
      assert |Unassigned(c[1..], a)| == 0;
      forall j | 0 < j < |c| ensures -c[j] in a { assert c[j] == c[1..][j - 1]; }
    }
  }

  /** An open clause has at least two unassigned positions. */
  lemma {:induction false} OpenPositions(c: SatClause, a: set<Lit>, i: nat)
    requires |Unassigned(c, a)| >= 2
    ensures exists j :: 0 <= j < |c| && j != i && -c[j] !in a
  {
    if -c[0] in a {
      OpenPositions(c[1..], a, if i > 0 then i - 1 else |c|);
      var j :| 0 <= j < |c[1..]| && (if i > 0 then j != i - 1 else true) && -c[1..][j] !in a;
      assert c[j + 1] == c[1..][j];
    } else if i == 0 {
      var u := Unassigned(c[1..], a);
      assert u[0] in u;
      var j :| 0 <= j < |c[1..]| && c[1..][j] == u[0];
      assert c[j + 1] == u[0];
    }
  }

  ghost predicate Below(a: set<Lit>, s: iset<Lit>) { forall l :: l in a ==> l in s }

  lemma {:induction false} PassInside(s: iset<Lit>, clauses: map<ClauseId, SatClause>, all: set<ClauseId>, a0: set<Lit>,
                                      whole: bool,
                                      a: set<Lit>, ids: seq<ClauseId>, progressed: bool)
    requires UnitClosed(s, clauses, all, a0, whole) && a0 <= a && Below(a, s) && Ids(ids) <= all
    ensures var r := Pass(clauses, a, ids, progressed);
      && (r.Conflict? ==> FalsifiesOne(s, clauses, all, a0, whole))
      && (r.Done? ==> a0 <= r.assignment && Below(r.assignment, s))
    decreases ids
  {
    if ids != [] && ids[0] in clauses {
      var c := clauses[ids[0]];
      var id := ids[0];
      assert id in Ids(ids) && id in all && Ids(ids[1..]) <= Ids(ids);
      match StatusOf(c, a) {
        case Falsified => assert id in all && id in clauses && Counts(clauses[id], a0, whole)
          && AllFalse(clauses[id], s);
        case Unit(l) =>
          var i := UnitPosition(c, a);
          assert Counts(clauses[id], a0, whole) && OthersFalse(clauses[id], i, s);
          assert clauses[id][i] in s;
          PassInside(s, clauses, all, a0, whole, a + {l}, ids[1..], progressed || l !in a);
        case _ => PassInside(s, clauses, all, a0, whole, a, ids[1..], progressed);
      }
    }
  }

  lemma {:induction false} RoundsInside(s: iset<Lit>, clauses: map<ClauseId, SatClause>, ids: seq<ClauseId>,
                                        a0: set<Lit>, whole: bool, a: set<Lit>)
    requires UnitClosed(s, clauses, Ids(ids), a0, whole) && a0 <= a && Below(a, s) && Rounds(clauses, a, ids)
    ensures FalsifiesOne(s, clauses, Ids(ids), a0, whole)
    decreases |Universe(clauses, ids) - a|
  {
    PassInside(s, clauses, Ids(ids), a0, whole, a, ids, false);
    PassGrows(clauses, a, ids, false, Universe(clauses, ids));
    match Pass(clauses, a, ids, false)
    case Done(b, progressed) =>
      if progressed {
        SmallerRest(Universe(clauses, ids), a, b);
        RoundsInside(s, clauses, ids, a0, whole, b);
      }
    case _ =>
  }

  /** A pass without progress leaves every antecedent satisfied or open. */
  lemma {:induction false} PassStuck(clauses: map<ClauseId, SatClause>, a: set<Lit>, ids: seq<ClauseId>)
    requires Pass(clauses, a, ids, false) == Done(a, false)
    ensures forall id :: id in ids ==>
      id in clauses && (StatusOf(clauses[id], a).Satisfied? || StatusOf(clauses[id], a).Open?)
  {
    if ids != [] && ids[0] in clauses {
      var c := clauses[ids[0]];
      match StatusOf(c, a) {
        case Unit(l) =>
          assert l in Unassigned(c, a);
          PassFlag(clauses, a + {l}, ids[1..]);
        case Falsified =>
        case _ => PassStuck(clauses, a, ids[1..]);
      }
    }
  }

  lemma {:induction false} PassFlag(clauses: map<ClauseId, SatClause>, a: set<Lit>, ids: seq<ClauseId>)
    ensures Pass(clauses, a, ids, true).Done? ==> Pass(clauses, a, ids, true).progressed
    decreases ids
  {
    if ids != [] && ids[0] in clauses {
      match StatusOf(clauses[ids[0]], a) {
        case Unit(l) => PassFlag(clauses, a + {l}, ids[1..]);
        case Falsified =>
        case _ => PassFlag(clauses, a, ids[1..]);
      }
    }
  }

  lemma {:induction false} PassConsistent(clauses: map<ClauseId, SatClause>, a0: set<Lit>, a: set<Lit>,
                                          ids: seq<ClauseId>, progressed: bool)
    requires Consistent(a, a0) && NoZero(clauses) && Resolves(clauses, ids)
    ensures var r := Pass(clauses, a, ids, progressed); !r.Missing? && (r.Done? ==> Consistent(r.assignment, a0))
    decreases ids
  {
    if ids != [] {
      var id := ids[0];
      assert id in ids;
      assert id in clauses && Resolves(clauses, ids[1..]);
      var c := clauses[id];
      assert 0 !in c;
      match StatusOf(c, a) {
        case Unit(l) =>
          assert l in Unassigned(c, a);
          PassConsistent(clauses, a0, a + {l}, ids[1..], progressed || l !in a);
        case Falsified =>
        case _ => PassConsistent(clauses, a0, a, ids[1..], progressed);
      }
    }
  }

  /** When the loop gives up, it has reached a consistent fixpoint. */
  lemma {:induction false} RoundsStuck(clauses: map<ClauseId, SatClause>, ids: seq<ClauseId>, a0: set<Lit>, a: set<Lit>)
    returns (f: set<Lit>)
    requires Consistent(a, a0) && NoZero(clauses) && Resolves(clauses, ids) && !Rounds(clauses, a, ids)
    ensures Consistent(f, a0) && Pass(clauses, f, ids, false) == Done(f, false)
    decreases |Universe(clauses, ids) - a|
  {
    PassConsistent(clauses, a0, a, ids, false);
    PassGrows(clauses, a, ids, false, Universe(clauses, ids));
    var b := Pass(clauses, a, ids, false);
    if b.progressed {
      SmallerRest(Universe(clauses, ids), a, b.assignment);
      f := RoundsStuck(clauses, ids, a0, b.assignment);
    } else {
      f := a;
    }
  }

  ghost predicate Stuck(clauses: map<ClauseId, SatClause>, ids: seq<ClauseId>, a0: set<Lit>, f: set<Lit>, whole: bool) {
    && Consistent(f, a0)
    && (whole ==> forall l :: l in a0 ==> -l !in a0)
    && forall id :: id in ids ==>
      id in clauses && (StatusOf(clauses[id], f).Satisfied? || StatusOf(clauses[id], f).Open?)
  }

  lemma StuckStep(c: SatClause, a0: set<Lit>, f: set<Lit>, whole: bool, i: nat)
    requires Consistent(f, a0) && Counts(c, a0, whole) && (whole ==> forall l :: l in a0 ==> -l !in a0)
    requires StatusOf(c, f).Satisfied? || StatusOf(c, f).Open?
    requires forall j :: 0 <= j < |c| && j != i ==> -c[j] in f
    ensures i < |c| && c[i] in f
  {
    if StatusOf(c, f).Open? {
      OpenPositions(c, f, i);
    } else {
      var m :| m in c && m in f;
      var k :| 0 <= k < |c| && c[k] == m;
      if k != i { assert false; }
    }
  }

  lemma StuckClosed(clauses: map<ClauseId, SatClause>, ids: seq<ClauseId>, a0: set<Lit>, f: set<Lit>, whole: bool)
    requires Stuck(clauses, ids, a0, f, whole)
    ensures var s := iset l | l in f;
      && UnitClosed(s, clauses, Ids(ids), a0, whole)
      && !FalsifiesOne(s, clauses, Ids(ids), a0, whole)
  {
    var s := iset l | l in f;
    forall id, i | id in Ids(ids) && id in clauses && Counts(clauses[id], a0, whole) && 0 <= i < |clauses[id]|
      && OthersFalse(clauses[id], i, s)
      ensures clauses[id][i] in s
    {
      StuckStep(clauses[id], a0, f, whole, i);
    }
    if FalsifiesOne(s, clauses, Ids(ids), a0, whole) {
      var id :| id in Ids(ids) && id in clauses && Counts(clauses[id], a0, whole) && AllFalse(clauses[id], s);
      StuckStep(clauses[id], a0, f, whole, |clauses[id]|);
    }
  }

  /** The verdict is exact: when every antecedent resolves, the check succeeds if and only if the
      unit-propagation closure of the negated conclusion falsifies an antecedent. Antecedents
      containing an assumed literal do not count; for a conclusion that is not a tautology they
      may be counted without changing the closure's verdict (`whole`). */
  lemma RupExact(clauses: map<ClauseId, SatClause>, conclusion: SatClause, ids: seq<ClauseId>, whole: bool)
    requires Resolves(clauses, ids) && NoZero(clauses)
    requires whole ==> 0 !in conclusion && forall l :: l in conclusion ==> -l !in conclusion
    ensures Rup(clauses, conclusion, ids) <==> ClosureRefutes(clauses, Ids(ids), Negated(conclusion), whole)
  {
    var a0 := Negated(conclusion);
    if Rup(clauses, conclusion, ids) {
      forall s: iset<Lit> | UnitClosed(s, clauses, Ids(ids), a0, whole)
        ensures FalsifiesOne(s, clauses, Ids(ids), a0, whole)
      {
        RoundsInside(s, clauses, ids, a0, whole, a0);
      }
    } else {
      var f := RoundsStuck(clauses, ids, a0, a0);
      PassStuck(clauses, f, ids);
      forall l | whole && l in a0 ensures -l !in a0 { NegatedHas(conclusion, l); NegatedHas(conclusion, -l); }
      StuckClosed(clauses, ids, a0, f, whole);
    }
  }

  /** Hence the order and repetition of antecedents do not matter. */
  lemma RupOrderIndependent(clauses: map<ClauseId, SatClause>, conclusion: SatClause, ids1: seq<ClauseId>,
                            ids2: seq<ClauseId>)
    requires Resolves(clauses, ids1) && NoZero(clauses) && Ids(ids1) == Ids(ids2)
    ensures Rup(clauses, conclusion, ids1) == Rup(clauses, conclusion, ids2)
  {
    forall id | id in ids2 ensures id in clauses { assert id in Ids(ids2) && id in Ids(ids1); }
    RupExact(clauses, conclusion, ids1, false);
    RupExact(clauses, conclusion, ids2, false);
  }

  // ----- when the order of antecedents matters

  /** The antecedents that resolve, in listed order. */
  function Resolved(clauses: map<ClauseId, SatClause>, ids: seq<ClauseId>): (r: seq<ClauseId>)
    ensures forall id :: id in r <==> id in ids && id in clauses
  {
    if ids == [] then []
    else (if ids[0] in clauses then [ids[0]] else []) + Resolved(clauses, ids[1..])
  }

  /** Every listing of the same antecedents gets the same verdict. */
  ghost predicate OrderIrrelevant(clauses: map<ClauseId, SatClause>, conclusion: SatClause, ids: seq<ClauseId>) {
    forall other :: Ids(other) == Ids(ids) ==> Rup(clauses, conclusion, other) == Rup(clauses, conclusion, ids)
  }

  /** The order matters exactly when some antecedent does not resolve although the others
      alone certify the conclusion. */
  lemma RupOrderExact(clauses: map<ClauseId, SatClause>, conclusion: SatClause, ids: seq<ClauseId>)
    requires NoZero(clauses)
    ensures OrderIrrelevant(clauses, conclusion, ids) <==>
      Resolves(clauses, ids) || !Rup(clauses, conclusion, Resolved(clauses, ids))
    ensures Rup(clauses, conclusion, Resolved(clauses, ids)) <==>
      ClosureRefutes(clauses, Ids(ids), Negated(conclusion), false)
  {
    ResolvedExact(clauses, conclusion, ids);
    if Resolves(clauses, ids) {
      forall other | Ids(other) == Ids(ids) ensures Rup(clauses, conclusion, other) == Rup(clauses, conclusion, ids) {
        RupOrderIndependent(clauses, conclusion, ids, other);
      }
    } else if Rup(clauses, conclusion, Resolved(clauses, ids)) {
      OrderMatters(clauses, conclusion, ids);
    } else {
      forall other | Ids(other) == Ids(ids) ensures !Rup(clauses, conclusion, other) {
        if Rup(clauses, conclusion, other) { RupRefutes(clauses, conclusion, other); }
      }
      assert !Rup(clauses, conclusion, ids);
    }
  }

  lemma RupRefutes(clauses: map<ClauseId, SatClause>, conclusion: SatClause, ids: seq<ClauseId>)
    requires Rup(clauses, conclusion, ids)
    ensures ClosureRefutes(clauses, Ids(ids), Negated(conclusion), false)
  {
    var a0 := Negated(conclusion);
    forall s: iset<Lit> | UnitClosed(s, clauses, Ids(ids), a0, false)
      ensures FalsifiesOne(s, clauses, Ids(ids), a0, false)
    {
      RoundsInside(s, clauses, ids, a0, false, a0);
    }
  }

  /** Antecedents that do not resolve take no part in the closure. */
  lemma ResolvedExact(clauses: map<ClauseId, SatClause>, conclusion: SatClause, ids: seq<ClauseId>)
    requires NoZero(clauses)
    ensures Rup(clauses, conclusion, Resolved(clauses, ids)) <==>
      ClosureRefutes(clauses, Ids(ids), Negated(conclusion), false)
  {
    var rs, a0 := Resolved(clauses, ids), Negated(conclusion);
    RupExact(clauses, conclusion, rs, false);
    forall s: iset<Lit>
      ensures UnitClosed(s, clauses, Ids(rs), a0, false) == UnitClosed(s, clauses, Ids(ids), a0, false)
      ensures FalsifiesOne(s, clauses, Ids(rs), a0, false) == FalsifiesOne(s, clauses, Ids(ids), a0, false)
    {
      assert forall id :: id in clauses ==> (id in Ids(rs) <==> id in Ids(ids));
    }
  }

  lemma {:induction false} PassConcat(clauses: map<ClauseId, SatClause>, a: set<Lit>, p: seq<ClauseId>,
                                      q: seq<ClauseId>, progressed: bool)
    ensures var r := Pass(clauses, a, p, progressed);
      Pass(clauses, a, p + q, progressed) == if r.Done? then Pass(clauses, r.assignment, q, r.progressed) else r
    decreases p
  {
    if p == [] {
      assert p + q == q;
    } else {
      assert (p + q)[1..] == p[1..] + q;
      if p[0] in clauses {
        match StatusOf(clauses[p[0]], a) {
          case Unit(l) => PassConcat(clauses, a + {l}, p[1..], q, progressed || l !in a);
          case Falsified =>
          case _ => PassConcat(clauses, a, p[1..], q, progressed);
        }
      }
    }
  }

  lemma {:induction false} ConflictAnyFlag(clauses: map<ClauseId, SatClause>, a: set<Lit>, ids: seq<ClauseId>,
                                           x: bool, y: bool)
    ensures Pass(clauses, a, ids, x).Conflict? == Pass(clauses, a, ids, y).Conflict?
    decreases ids
  {
    if ids != [] && ids[0] in clauses {
      match StatusOf(clauses[ids[0]], a) {
        case Unit(l) => ConflictAnyFlag(clauses, a + {l}, ids[1..], x || l !in a, y || l !in a);
        case Falsified =>
        case _ => ConflictAnyFlag(clauses, a, ids[1..], x, y);
      }
    }
  }

  /** Successful rounds over `ids`, unrolled into one list that conflicts in its first pass. */
  lemma {:induction false} Unrolled(clauses: map<ClauseId, SatClause>, a: set<Lit>, ids: seq<ClauseId>)
    returns (long: seq<ClauseId>)
    requires Rounds(clauses, a, ids)
    ensures Pass(clauses, a, long, false).Conflict? && forall id :: id in long ==> id in ids
    decreases |Universe(clauses, ids) - a|
  {
    PassGrows(clauses, a, ids, false, Universe(clauses, ids));
    var r := Pass(clauses, a, ids, false);
    if r.Conflict? { return ids; }
    SmallerRest(Universe(clauses, ids), a, r.assignment);
    var rest := Unrolled(clauses, r.assignment, ids);
    ConflictAnyFlag(clauses, r.assignment, rest, false, r.progressed);
    PassConcat(clauses, a, ids, rest, false);
    long := ids + rest;
  }

  /** The missing antecedent listed first is met at once; listed after enough repetitions of
      the others it is never reached. */
  lemma OrderMatters(clauses: map<ClauseId, SatClause>, conclusion: SatClause, ids: seq<ClauseId>)
    requires !Resolves(clauses, ids) && Rup(clauses, conclusion, Resolved(clauses, ids))
    ensures !OrderIrrelevant(clauses, conclusion, ids)
  {
    var a0 := Negated(conclusion);
    var missing :| missing in ids && missing !in clauses;
    var long := Unrolled(clauses, a0, Resolved(clauses, ids));
    PassConcat(clauses, a0, long, ids, false);
    var first, last := [missing] + ids, long + ids;
    assert forall id :: id in first || id in last ==> id in ids;
    assert Ids(first) == Ids(ids) && Ids(last) == Ids(ids);
    assert !Rup(clauses, conclusion, first) && Rup(clauses, conclusion, last);
  }

  /** The smallest instance: the empty clause and one missing antecedent. */
  lemma RupOrderDependent()
    ensures Rup(map[1 := []], [], [1, 2]) && !Rup(map[1 := []], [], [2, 1])
    ensures !OrderIrrelevant(map[1 := []], [], [1, 2])
  {
    assert StatusOf([], Negated([])) == Falsified;
    assert Ids([1, 2]) == Ids([2, 1]);
  }

  // ----- the verdict as a conflict in listed order, whether or not everything resolves

  /** Under `a` nothing in `c` is true and every literal but the one at `i` is false. */
  predicate OnlyOpen(c: SatClause, a: set<Lit>, i: nat) {
    && i < |c| && -c[i] !in a
    && (forall j :: 0 <= j < |c| ==> c[j] !in a)
    && (forall j :: 0 <= j < |c| && j != i ==> -c[j] in a)
  }

  /** Meeting `c` under `a` adds its only open literal, if it has one. */
  ghost predicate Extends(c: SatClause, a: set<Lit>, b: set<Lit>) {
    if exists i: nat :: OnlyOpen(c, a, i) then exists i: nat :: OnlyOpen(c, a, i) && b == a + {c[i]} else b == a
  }

  predicate FalseUnder(c: SatClause, a: set<Lit>) { forall j :: 0 <= j < |c| ==> c[j] !in a && -c[j] in a }

  /** The clauses listed before position `k` are there and extend `a` one after the other, and the
      one at `k` is false by then. */
  ghost predicate ConflictAt(clauses: map<ClauseId, SatClause>, a: set<Lit>, ids: seq<ClauseId>, k: nat,
                             stages: seq<set<Lit>>)
  {
    && k < |ids| && |stages| == k + 1 && stages[0] == a
    && (forall j :: 0 <= j < k ==> ids[j] in clauses && Extends(clauses[ids[j]], stages[j], stages[j + 1]))
    && ids[k] in clauses && FalseUnder(clauses[ids[k]], stages[k])
  }

  ghost predicate ListedConflict(clauses: map<ClauseId, SatClause>, a: set<Lit>, ids: seq<ClauseId>) {
    exists k: nat, stages :: ConflictAt(clauses, a, ids, k, stages)
  }

  function Repeated(ids: seq<ClauseId>, n: nat): seq<ClauseId> { if n == 0 then [] else ids + Repeated(ids, n - 1) }

  /** The list, repeated often enough, runs into a false clause before it runs into a missing one. */
  ghost predicate ConflictInTime(clauses: map<ClauseId, SatClause>, a: set<Lit>, ids: seq<ClauseId>) {
    exists n: nat :: ListedConflict(clauses, a, Repeated(ids, n))
  }

  lemma StatusExtends(c: SatClause, a: set<Lit>)
    ensures StatusOf(c, a).Falsified? <==> FalseUnder(c, a)
    ensures forall b :: Extends(c, a, b) <==> b == if StatusOf(c, a).Unit? then a + {StatusOf(c, a).lit} else a
  {
    if StatusOf(c, a).Satisfied? {
      var l :| l in c && l in a;
      var k: nat :| k < |c| && c[k] == l;
      forall i: nat ensures !OnlyOpen(c, a, i) {}
    } else if StatusOf(c, a).Unit? {
      var u := UnitPosition(c, a);
      assert OnlyOpen(c, a, u);
      forall i: nat | OnlyOpen(c, a, i) ensures i == u {}
    } else if StatusOf(c, a).Open? {
      forall i: nat ensures !OnlyOpen(c, a, i) { OpenPositions(c, a, i); }
    } else {
      forall i: nat ensures !OnlyOpen(c, a, i) {}
    }
  }

  lemma {:induction false} PassListed(clauses: map<ClauseId, SatClause>, a: set<Lit>, ids: seq<ClauseId>,
                                      progressed: bool)
    ensures Pass(clauses, a, ids, progressed).Conflict? <==> ListedConflict(clauses, a, ids)
    decreases ids
  {
    if ids != [] && ids[0] in clauses {
      var c := clauses[ids[0]];
      StatusExtends(c, a);
      var s := StatusOf(c, a);
      if s.Falsified? {
        assert ConflictAt(clauses, a, ids, 0, [a]);
      } else {
        var b := if s.Unit? then a + {s.lit} else a;
        PassListed(clauses, b, ids[1..], progressed || (s.Unit? && s.lit !in a));
        ListedCons(clauses, a, ids, b);
      }
    }
  }

  lemma ListedCons(clauses: map<ClauseId, SatClause>, a: set<Lit>, ids: seq<ClauseId>, b: set<Lit>)
    requires ids != [] && ids[0] in clauses && !FalseUnder(clauses[ids[0]], a)
    requires forall x :: Extends(clauses[ids[0]], a, x) <==> x == b
    ensures ListedConflict(clauses, a, ids) <==> ListedConflict(clauses, b, ids[1..])
  {
    if k: nat, stages :| ConflictAt(clauses, a, ids, k, stages) {
      assert k > 0 && stages[1] == b;
      assert ConflictAt(clauses, b, ids[1..], k - 1, stages[1..]);
    }
    if k: nat, stages :| ConflictAt(clauses, b, ids[1..], k, stages) {
      var longer := [a] + stages;
      forall j | 0 <= j < k + 1 ensures ids[j] in clauses && Extends(clauses[ids[j]], longer[j], longer[j + 1]) {
        if j > 0 { assert ids[1..][j - 1] == ids[j] && longer[j] == stages[j - 1]; }
      }
      assert ConflictAt(clauses, a, ids, k + 1, longer);
    }
  }

  /** What the verdict means on all inputs, missing antecedents and zero literals included. */
  lemma RupListed(clauses: map<ClauseId, SatClause>, conclusion: SatClause, ids: seq<ClauseId>)
    ensures Rup(clauses, conclusion, ids) <==> ConflictInTime(clauses, Negated(conclusion), ids)
  {
    var a := Negated(conclusion);
    if Rup(clauses, conclusion, ids) {
      var n := RoundsRepeat(clauses, a, ids);
      PassListed(clauses, a, Repeated(ids, n), false);
    } else {
      forall n: nat ensures !ListedConflict(clauses, a, Repeated(ids, n)) {
        RoundsFail(clauses, a, ids, n);
        PassListed(clauses, a, Repeated(ids, n), false);
      }
    }
  }

  lemma {:induction false} RoundsRepeat(clauses: map<ClauseId, SatClause>, a: set<Lit>, ids: seq<ClauseId>)
    returns (n: nat)
    requires Rounds(clauses, a, ids)
    ensures Pass(clauses, a, Repeated(ids, n), false).Conflict?
    decreases |Universe(clauses, ids) - a|
  {
    PassGrows(clauses, a, ids, false, Universe(clauses, ids));
    var r := Pass(clauses, a, ids, false);
    if r.Conflict? {
      assert Repeated(ids, 1) == ids + Repeated(ids, 0) == ids;
      return 1;
    }
    SmallerRest(Universe(clauses, ids), a, r.assignment);
    n := RoundsRepeat(clauses, r.assignment, ids);
    ConflictAnyFlag(clauses, r.assignment, Repeated(ids, n), false, r.progressed);
    PassConcat(clauses, a, ids, Repeated(ids, n), false);
    n := n + 1;
  }

  lemma {:induction false} RoundsFail(clauses: map<ClauseId, SatClause>, a: set<Lit>, ids: seq<ClauseId>, n: nat)
    requires !Rounds(clauses, a, ids)
    ensures !Pass(clauses, a, Repeated(ids, n), false).Conflict?
    decreases n
  {
    if n > 0 {
      PassGrows(clauses, a, ids, false, Universe(clauses, ids));
      PassConcat(clauses, a, ids, Repeated(ids, n - 1), false);
      var r := Pass(clauses, a, ids, false);
      if r.Done? {
        RoundsFail(clauses, r.assignment, ids, n - 1);
        ConflictAnyFlag(clauses, r.assignment, Repeated(ids, n - 1), false, r.progressed);
      }
    }
  }

  // ----- soundness for every input

  /** A valuation is the set of its true variables. The checker never complements `0`, so the
      literal `0` is read as true. */
  ghost predicate LitTrue(v: iset<int>, l: Lit) {
    l == 0 || (l > 0 && l in v) || (l < 0 && -l !in v)
  }

  ghost predicate ClauseTrue(v: iset<int>, c: SatClause) {
    exists l :: l in c && LitTrue(v, l)
  }

  lemma TrueUnassigned(v: iset<int>, c: SatClause, a: set<Lit>, k: nat)
    requires (forall x :: x in a ==> LitTrue(v, x)) && k < |c| && LitTrue(v, c[k]) && c[k] !in a
    ensures -c[k] !in a && c[k] in Unassigned(c, a)
  {
    var l := c[k];
    assert -l in a ==> -l == l;
  }

  /** Propagation from true literals over a true clause only learns true literals. */
  lemma UnitTrue(v: iset<int>, c: SatClause, a: set<Lit>)
    requires (forall x :: x in a ==> LitTrue(v, x)) && ClauseTrue(v, c)
    ensures !StatusOf(c, a).Falsified?
    ensures StatusOf(c, a).Unit? ==> LitTrue(v, StatusOf(c, a).lit)
  {
    var m :| m in c && LitTrue(v, m);
    var k :| 0 <= k < |c| && c[k] == m;
    if c[k] !in a { TrueUnassigned(v, c, a, k); }
  }

  lemma {:induction false} PassSound(v: iset<int>, clauses: map<ClauseId, SatClause>, a: set<Lit>, ids: seq<ClauseId>,
                                     progressed: bool)
    requires forall id :: id in ids && id in clauses ==> ClauseTrue(v, clauses[id])
    requires forall l :: l in a ==> LitTrue(v, l)
    ensures var r := Pass(clauses, a, ids, progressed);
      !r.Conflict? && (r.Done? ==> forall l :: l in r.assignment ==> LitTrue(v, l))
    decreases ids
  {
    if ids != [] && ids[0] in clauses {
      var id := ids[0];
      assert id in ids && forall i :: i in ids[1..] ==> i in ids;
      UnitTrue(v, clauses[id], a);
      match StatusOf(clauses[id], a) {
        case Falsified =>
        case Unit(l) => PassSound(v, clauses, a + {l}, ids[1..], progressed || l !in a);
        case _ => PassSound(v, clauses, a, ids[1..], progressed);
      }
    }
  }

  lemma {:induction false} RoundsSound(v: iset<int>, clauses: map<ClauseId, SatClause>, a: set<Lit>, ids: seq<ClauseId>)
    requires forall id :: id in ids && id in clauses ==> ClauseTrue(v, clauses[id])
    requires forall l :: l in a ==> LitTrue(v, l)
    ensures !Rounds(clauses, a, ids)
    decreases |Universe(clauses, ids) - a|
  {
    PassSound(v, clauses, a, ids, false);
    PassGrows(clauses, a, ids, false, Universe(clauses, ids));
    match Pass(clauses, a, ids, false)
    case Done(b, progressed) =>
      if progressed {
        SmallerRest(Universe(clauses, ids), a, b);
        RoundsSound(v, clauses, b, ids);
      }
    case _ =>
  }

  /** A certified conclusion is true wherever its antecedents are. */
  lemma RupSound(v: iset<int>, clauses: map<ClauseId, SatClause>, conclusion: SatClause, ids: seq<ClauseId>)
    requires Rup(clauses, conclusion, ids)
    requires forall id :: id in ids && id in clauses ==> ClauseTrue(v, clauses[id])
    ensures ClauseTrue(v, conclusion)
  {
    if !ClauseTrue(v, conclusion) {
      forall l | l in Negated(conclusion) ensures LitTrue(v, l) {
        var p :| p in conclusion && l == -p;
        assert !LitTrue(v, p);
      }
      RoundsSound(v, clauses, Negated(conclusion), ids);
    }
  }
}
