/** `check_proof_trace`: replaying a solver's event stream, and soundness of acceptance. */
module ProofTrace {
  import opened RupCheck

  datatype Event =
    | BeginProof(firstDerived: int)
    | OriginalClause(id: ClauseId, redundant: bool, clause: SatClause, restored: bool)
    | DerivedClause(id: ClauseId, redundant: bool, ratWitness: int, clause: SatClause, antecedents: seq<ClauseId>)
    | DeleteClause(id: ClauseId, redundant: bool, clause: SatClause)
    | DemoteClause(id: ClauseId, clause: SatClause)
    | WeakenMinus(id: ClauseId, clause: SatClause)
    | Strengthen(id: ClauseId)
    | FinalizeClause(id: ClauseId, clause: SatClause)
    | ReportStatus(status: int, id: ClauseId)
    | SolveQuery
    | AddAssumption(literal: Lit)
    | AddConstraint(clause: SatClause)
    | ResetAssumptions
    | AddAssumptionClause(id: ClauseId, clause: SatClause, antecedents: seq<ClauseId>)
    | ConcludeUnsat(conclusion: int, clauseIds: seq<ClauseId>)
    | ConcludeSat(model: seq<Lit>)
    | ConcludeUnknown(trail: seq<Lit>)
    | NotifyEquivalence(first: Lit, second: Lit)

  datatype Reason =
    | UnsupportedEvent | NonPositiveId | DuplicateId | RatWitness | NoAntecedents
    | RupFailed | FinalizeMismatch | NoFinalEmptyClause

  datatype Verdict = Accepted | Malformed(reason: Reason) | DeadlineExceeded

  /** The checker's state between events: tracked clauses and "the empty clause was finalised". */
  datatype State = State(clauses: map<ClauseId, SatClause>, finalizedEmpty: bool)

  datatype Stepped = Next(state: State) | Rejected(reason: Reason)

  predicate IsTautology(c: SatClause) { exists l :: l in c && -l in c }

  /** One iteration of the event loop. */
  function Step(st: State, e: Event): Stepped {
    match e
    case WeakenMinus(_, _) => Rejected(UnsupportedEvent)
    case Strengthen(_) => Rejected(UnsupportedEvent)
    case DemoteClause(_, _) => Rejected(UnsupportedEvent)
    case AddAssumptionClause(_, _, _) => Rejected(UnsupportedEvent)
    case OriginalClause(id, _, c, _) =>
      if id <= 0 then Rejected(NonPositiveId)
      else if id in st.clauses then Rejected(DuplicateId)
      else Next(st.(clauses := st.clauses[id := c]))
    case DerivedClause(id, _, ratWitness, c, ants) =>
      if id <= 0 || id in st.clauses then Rejected(DuplicateId)
      else if ratWitness != 0 then Rejected(RatWitness)
      else if ants == [] && !IsTautology(c) then Rejected(NoAntecedents)
      else if ants != [] && !Rup(st.clauses, c, ants) then Rejected(RupFailed)
      else Next(st.(clauses := st.clauses[id := c]))
    case DeleteClause(id, _, _) => Next(st.(clauses := st.clauses - {id}))
    case FinalizeClause(id, c) =>
      if id in st.clauses && multiset(st.clauses[id]) == multiset(c)
      then Next(st.(finalizedEmpty := st.finalizedEmpty || c == []))
      else Rejected(FinalizeMismatch)
    case _ => Next(st)
  }

  /** The replay from event `i` on. The clock is read at every 64th event and has passed the
      deadline from event `expiry` on, if it ever does. */
  function Run(events: seq<Event>, i: nat, st: State, expiry: int): Verdict
    requires i <= |events|
    decreases |events| - i
  {
    if i == |events| then (if st.finalizedEmpty then Accepted else Malformed(NoFinalEmptyClause))
    else if i % 64 == 0 && 0 <= expiry <= i then DeadlineExceeded
    else match Step(st, events[i])
      case Rejected(reason) => Malformed(reason)
      case Next(st2) => Run(events, i + 1, st2, expiry)
  }

  const NEVER: int := -1

  function CheckTrace(events: seq<Event>, expiry: int): Verdict { Run(events, 0, State(map[], false), expiry) }

  /** `check_proof_trace_until`; `check_proof_trace` is the case without a deadline. */
  method CheckProofTrace(events: seq<Event>, expiry: int) returns (v: Verdict)
    ensures v == CheckTrace(events, expiry)
    ensures v.Accepted? <==> AllLegal(events) && FinalizesEmpty(events) && InTime(events, expiry)
  {
    v := ReplayTrace(events, expiry);
    AcceptedExact(events, expiry);
  }

  /** `check_proof_trace_inner`. */
  method ReplayTrace(events: seq<Event>, expiry: int) returns (v: Verdict)
    ensures v == CheckTrace(events, expiry)
  {
    var clauses: map<ClauseId, SatClause> := map[];
    var finalizedEmpty := false;
    for i := 0 to |events|
      invariant CheckTrace(events, expiry) == Run(events, i, State(clauses, finalizedEmpty), expiry)
    {
      if i % 64 == 0 && 0 <= expiry <= i { return DeadlineExceeded; }
      match events[i] {
        case WeakenMinus(_, _) => return Malformed(UnsupportedEvent);
        case Strengthen(_) => return Malformed(UnsupportedEvent);
        case DemoteClause(_, _) => return Malformed(UnsupportedEvent);
        case AddAssumptionClause(_, _, _) => return Malformed(UnsupportedEvent);
        case OriginalClause(id, _, c, _) =>
          if id <= 0 { return Malformed(NonPositiveId); }
          var known := id in clauses;
          if known { return Malformed(DuplicateId); }
          clauses := clauses[id := c];
        case DerivedClause(id, _, ratWitness, c, ants) =>
          if id <= 0 || id in clauses { return Malformed(DuplicateId); }
          if ratWitness != 0 { return Malformed(RatWitness); }
          if ants == [] && !IsTautology(c) { return Malformed(NoAntecedents); }
          if ants != [] {
            var ok := RupCheck.Check(clauses, c, ants);
            if !ok { return Malformed(RupFailed); }
          }
          clauses := clauses[id := c];
        case DeleteClause(id, _, _) => clauses := clauses - {id};
        case FinalizeClause(id, c) =>
          if id !in clauses || multiset(clauses[id]) != multiset(c) { return Malformed(FinalizeMismatch); }
          finalizedEmpty := finalizedEmpty || c == [];
        case _ =>
      }
    }
    v := if finalizedEmpty then Accepted else Malformed(NoFinalEmptyClause);
  }

  // ----- which traces are accepted, on the event list alone

  /** The clauses tracked after some events: added ones that were not deleted since. */
  function Table(events: seq<Event>): map<ClauseId, SatClause> {
    if events == [] then map[] else
    var last, t := events[|events| - 1], Table(events[..|events| - 1]);
    if last.OriginalClause? || last.DerivedClause? then t[last.id := last.clause]
    else if last.DeleteClause? then t - {last.id}
    else t
  }

  /** A clause that cites nothing is a tautology. Otherwise the unit-propagation closure of its
      negation falsifies a cited clause; where a cited id is not tracked or a literal is 0, the
      list, repeated, runs into a false clause before it runs into a missing one. */
  ghost predicate Justified(t: map<ClauseId, SatClause>, c: SatClause, ants: seq<ClauseId>) {
    if ants == [] then exists l :: l in c && -l in c
    else if Resolves(t, ants) && NoZero(t) then ClosureRefutes(t, Ids(ants), Negated(c), false)
    else ConflictInTime(t, Negated(c), ants)
  }

  /** What an event needs of the clauses tracked before it. */
  ghost predicate Legal(e: Event, t: map<ClauseId, SatClause>) {
    match e
    case WeakenMinus(_, _) => false
    case Strengthen(_) => false
    case DemoteClause(_, _) => false
    case AddAssumptionClause(_, _, _) => false
    case OriginalClause(id, _, _, _) => id > 0 && id !in t
    case DerivedClause(id, _, ratWitness, c, ants) => id > 0 && id !in t && ratWitness == 0 && Justified(t, c, ants)
    case FinalizeClause(id, c) => id in t && multiset(t[id]) == multiset(c)
    case _ => true
  }

  ghost predicate AllLegal(events: seq<Event>) {
    forall i :: 0 <= i < |events| ==> Legal(events[i], Table(events[..i]))
  }

  predicate FinalizesEmpty(events: seq<Event>) {
    exists i :: 0 <= i < |events| && events[i].FinalizeClause? && events[i].clause == []
  }

  /** No reading of the clock, one at every 64th event, comes after the deadline. */
  predicate InTime(events: seq<Event>, expiry: int) {
    forall i :: 0 <= i < |events| && i % 64 == 0 ==> !(0 <= expiry <= i)
  }

  lemma StepLegal(st: State, e: Event)
    ensures Step(st, e).Next? <==> Legal(e, st.clauses)
    ensures Step(st, e) != Rejected(NoFinalEmptyClause)
  {
    if e.DerivedClause? { DerivedLegal(st.clauses, e.clause, e.antecedents); }
  }

  lemma DerivedLegal(t: map<ClauseId, SatClause>, c: SatClause, ants: seq<ClauseId>)
    ensures Justified(t, c, ants) <==> if ants == [] then IsTautology(c) else Rup(t, c, ants)
  {
    RupListed(t, c, ants);
    if Resolves(t, ants) && NoZero(t) { RupExact(t, c, ants, false); }
  }

  lemma StepTable(events: seq<Event>, i: nat, st: State)
    requires i < |events| && st.clauses == Table(events[..i]) && Step(st, events[i]).Next?
    ensures Step(st, events[i]).state.clauses == Table(events[..i + 1])
    ensures Step(st, events[i]).state.finalizedEmpty <==>
      st.finalizedEmpty || (events[i].FinalizeClause? && events[i].clause == [])
  {
    assert events[..i + 1][..i] == events[..i];
  }

  ghost predicate LegalFrom(events: seq<Event>, i: nat) {
    forall k :: i <= k < |events| ==> Legal(events[k], Table(events[..k]))
  }

  predicate InTimeFrom(events: seq<Event>, i: nat, expiry: int) {
    forall k :: i <= k < |events| && k % 64 == 0 ==> !(0 <= expiry <= k)
  }

  predicate EmptyFrom(events: seq<Event>, i: nat) {
    exists k :: i <= k < |events| && events[k].FinalizeClause? && events[k].clause == []
  }

  lemma FromNext(events: seq<Event>, i: nat, expiry: int)
    requires i < |events|
    ensures LegalFrom(events, i) <==> Legal(events[i], Table(events[..i])) && LegalFrom(events, i + 1)
    ensures InTimeFrom(events, i, expiry) <==> !(i % 64 == 0 && 0 <= expiry <= i) && InTimeFrom(events, i + 1, expiry)
    ensures EmptyFrom(events, i) <==> (events[i].FinalizeClause? && events[i].clause == []) || EmptyFrom(events, i + 1)
  {
  }

  lemma {:induction false} RunExact(events: seq<Event>, i: nat, st: State, expiry: int)
    requires i <= |events| && st.clauses == Table(events[..i])
    ensures var v, fine := Run(events, i, st, expiry), LegalFrom(events, i) && InTimeFrom(events, i, expiry);
      && (v.Accepted? <==> fine && (st.finalizedEmpty || EmptyFrom(events, i)))
      && (v == Malformed(NoFinalEmptyClause) <==> fine && !(st.finalizedEmpty || EmptyFrom(events, i)))
    decreases |events| - i
  {
    if i < |events| {
      FromNext(events, i, expiry);
      StepLegal(st, events[i]);
      if Step(st, events[i]).Next? {
        StepTable(events, i, st);
        RunExact(events, i + 1, Step(st, events[i]).state, expiry);
      }
    }
  }

  /** A trace is accepted exactly when every event is legal, some finalised clause is empty and
      the clock was never read after the deadline. */
  lemma AcceptedExact(events: seq<Event>, expiry: int)
    ensures CheckTrace(events, expiry).Accepted? <==>
      AllLegal(events) && FinalizesEmpty(events) && InTime(events, expiry)
    ensures CheckTrace(events, expiry) == Malformed(NoFinalEmptyClause) <==>
      AllLegal(events) && !FinalizesEmpty(events) && InTime(events, expiry)
  {
    RunExact(events, 0, State(map[], false), expiry);
  }

  // ----- soundness

  /** The original clauses of the first `i` events. */
  function Originals(events: seq<Event>, i: nat): set<SatClause>
    requires i <= |events|
  {
    set k | 0 <= k < i && events[k].OriginalClause? :: events[k].clause
  }

  ghost predicate AllTrue(v: iset<int>, cs: set<SatClause>) {
    forall c :: c in cs ==> ClauseTrue(v, c)
  }

  /** Every tracked clause is entailed, and the empty clause only if the clauses are unsatisfiable. */
  ghost predicate Entailed(st: State, cs: set<SatClause>) {
    forall v: iset<int> :: AllTrue(v, cs) ==>
      !st.finalizedEmpty && forall id :: id in st.clauses ==> ClauseTrue(v, st.clauses[id])
  }

  lemma TautologyTrue(v: iset<int>, c: SatClause)
    requires IsTautology(c)
    ensures ClauseTrue(v, c)
  {
    var l :| l in c && -l in c;
    assert LitTrue(v, l) || LitTrue(v, -l);
  }

  /** One event keeps every tracked clause entailed by the originals seen so far. */
  lemma StepEntailed(st: State, e: Event, cs: set<SatClause>)
    requires Entailed(st, cs) && Step(st, e).Next?
    ensures Entailed(Step(st, e).state, if e.OriginalClause? then cs + {e.clause} else cs)
  {
    var cs2 := if e.OriginalClause? then cs + {e.clause} else cs;
    var st2 := Step(st, e).state;
    forall v: iset<int> | AllTrue(v, cs2)
      ensures !st2.finalizedEmpty && forall id :: id in st2.clauses ==> ClauseTrue(v, st2.clauses[id])
    {
      assert AllTrue(v, cs);
      if e.OriginalClause? { assert e.clause in cs2; }
      if e.DerivedClause? {
        if e.antecedents == [] { TautologyTrue(v, e.clause); }
          else { RupSound(v, st.clauses, e.clause, e.antecedents); }
      }
    }
  }

  lemma {:induction false} RunSound(events: seq<Event>, i: nat, st: State, expiry: int)
    requires i <= |events| && Entailed(st, Originals(events, i)) && Run(events, i, st, expiry).Accepted?
    ensures forall v: iset<int> :: !AllTrue(v, Originals(events, |events|))
    decreases |events| - i
  {
    if i < |events| {
      StepEntailed(st, events[i], Originals(events, i));
      assert Originals(events, i + 1) ==
        if events[i].OriginalClause? then Originals(events, i) + {events[i].clause} else Originals(events, i);
      RunSound(events, i + 1, Step(st, events[i]).state, expiry);
    }
  }

  /** If a trace is accepted, no valuation satisfies all its original clauses. */
  lemma AcceptanceSound(events: seq<Event>, expiry: int)
    requires CheckTrace(events, expiry).Accepted?
    ensures forall v: iset<int> :: !AllTrue(v, Originals(events, |events|))
  {
    assert Originals(events, 0) == {};
    RunSound(events, 0, State(map[], false), expiry);
  }

  /** A deadline can only withhold acceptance, and withholds it as `DeadlineExceeded`. */
  lemma {:induction false} DeadlineWithholds(events: seq<Event>, i: nat, st: State, expiry: int)
    requires i <= |events|
    ensures Run(events, i, st, expiry) == Run(events, i, st, NEVER) || Run(events, i, st, expiry).DeadlineExceeded?
    decreases |events| - i
  {
    if i < |events| && Step(st, events[i]).Next? {
      DeadlineWithholds(events, i + 1, Step(st, events[i]).state, expiry);
    }
  }
}
