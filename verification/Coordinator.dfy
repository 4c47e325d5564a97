/** The certification coordinator as a step system: any number of submitters, one worker and one
    caller of `finish`, interleaved at every atomic operation, lock and channel operation. */
module Coordinator {
  import opened Wrappers

  const MAX_QUEUED_CANDIDATES: nat := 8
  const MAX_QUEUED_PROOF_BYTES: nat := 64 * 1024 * 1024

  datatype Message = Candidate(bytes: nat) | Finish

  /** Where a submitter stands in `submit_candidate`. */
  datatype Submitter =
    | Outside(stop: bool)          // not in the call; `stop` is what the last call returned
    | Entered(bytes: nat)          // the coordinator had not failed
    | Reserved(bytes: nat)         // bytes counted, message not yet sent
    | SendFailed(bytes: nat)       // to be uncounted
    | Refused                      // to be reported in the telemetry
    | Leaving                      // to read the stop flag

  /** Where the worker stands in `worker_loop`. */
  datatype Worker =
    | Waiting
    | Received(bytes: nat)         // bytes still counted
    | Released                     // telemetry not yet counted
    | Counted                      // before the winner check, the time check and verification
    | Judged(certified: bool)      // verified, the telemetry not yet updated
    | Signalling                   // winner stored, stop flag not yet set
    | Exited                       // the receiver is dropped

  datatype Finisher = NotCalled | Sending | Joining | Finished(snapshot: Telemetry)

  datatype Reason = Overload | OfCandidate(index: nat)

  datatype Telemetry = Telemetry(candidates: nat, rejections: nat, reasons: seq<Reason>, certifiedIndex: Option<nat>)

  datatype State = State(
    submitters: seq<Submitter>,
    worker: Worker,
    finisher: Finisher,
    channel: seq<Message>,
    queued: int,
    leaked: nat,
    index: nat,
    telemetry: Telemetry,
    winner: Option<nat>,
    stop: Option<bool>,
    failed: bool,
    panicked: bool)

  /** `n` submitter threads; `spawned` says whether the worker thread could be started. */
  function Init(n: nat, spawned: bool): State {
    State(seq(n, _ => Outside(false)), if spawned then Waiting else Exited, NotCalled, [], 0, 0, 0,
          Telemetry(0, 0, [], None), None, None, !spawned, false)
  }

  datatype Action =
    | Enter(t: nat, bytes: nat) | Reserve(t: nat) | TrySend(t: nat) | Undo(t: nat) | Report(t: nat) | ReadFlag(t: nat)
    | RegisterStopFlag
    | Recv | Release | Count | Ignore | RejectForTime | Judge(certified: bool)
    | RejectVerdict | Certify | Signal | Panic
    | CallFinish | SendFinish | Join

  function SetSubmitter(s: State, t: nat, p: Submitter): State
    requires t < |s.submitters|
  {
    s.(submitters := s.submitters[t := p])
  }

  /** The worker thread ends: the receiver goes, and with it every message still queued. */
  function Exit(s: State): State {
    s.(worker := Exited, channel := [], leaked := s.leaked + ChannelBytes(s.channel))
  }

  function AddReason(reasons: seq<Reason>, r: Reason): seq<Reason> {
    if r == Overload && r in reasons then reasons else reasons + [r]
  }

  function Rejecting(t: Telemetry, r: Reason): Telemetry {
    t.(rejections := t.rejections + 1, reasons := AddReason(t.reasons, r))
  }

  function SubmitterStep(s: State, t: nat, a: Action): Option<State>
    requires t < |s.submitters|
  {
    var p := s.submitters[t];
    match a
    case Enter(_, bytes) =>
      if !p.Outside? then None
      else Some(SetSubmitter(s, t, if s.failed then Outside(false) else Entered(bytes)))
    case Reserve(_) =>
      if !p.Entered? then None
      else if s.queued + p.bytes <= MAX_QUEUED_PROOF_BYTES
      then Some(SetSubmitter(s.(queued := s.queued + p.bytes), t, Reserved(p.bytes)))
      else Some(SetSubmitter(s, t, Refused))
    case TrySend(_) =>
      if !p.Reserved? then None
      else if !s.worker.Exited? && |s.channel| < MAX_QUEUED_CANDIDATES
      then Some(SetSubmitter(s.(channel := s.channel + [Candidate(p.bytes)]), t, Leaving))
      else Some(SetSubmitter(s, t, SendFailed(p.bytes)))
    case Undo(_) =>
      if !p.SendFailed? then None
      else Some(SetSubmitter(s.(queued := s.queued - p.bytes), t, Refused))
    case Report(_) =>
      if !p.Refused? then None
      else
        var tele := Rejecting(s.telemetry, Overload);
        Some(SetSubmitter(s.(telemetry := tele.(candidates := tele.candidates + 1)), t, Leaving))
    case ReadFlag(_) =>
      if !p.Leaving? then None else Some(SetSubmitter(s, t, Outside(s.stop == Some(true))))
    case _ => None
  }

  function WorkerStep(s: State, a: Action): Option<State> {
    match a
    case Recv =>
      if !s.worker.Waiting? || s.channel == [] then None
      else if s.channel[0].Finish? then Some(Exit(s.(channel := s.channel[1..])))
      else Some(s.(channel := s.channel[1..], worker := Received(s.channel[0].bytes)))
    case Release =>
      if !s.worker.Received? then None
      else Some(s.(queued := s.queued - s.worker.bytes, worker := Released))
    case Count =>
      if !s.worker.Released? then None
      else Some(s.(index := s.index + 1, telemetry := s.telemetry.(candidates := s.telemetry.candidates + 1),
        worker := Counted))
    case Ignore =>
      if !s.worker.Counted? || s.winner.None? then None else Some(s.(worker := Waiting))
    case RejectForTime =>
      if !s.worker.Counted? || s.winner.Some? then None
      else Some(s.(telemetry := Rejecting(s.telemetry, OfCandidate(s.index)), worker := Waiting))
    case Judge(ok) =>
      if !s.worker.Counted? || s.winner.Some? then None else Some(s.(worker := Judged(ok)))
    case RejectVerdict =>
      if s.worker != Judged(false) then None
      else Some(s.(telemetry := Rejecting(s.telemetry, OfCandidate(s.index)), worker := Waiting))
    case Certify =>
      if s.worker != Judged(true) then None
      else Some(s.(telemetry := s.telemetry.(certifiedIndex := Some(s.index)), winner := Some(s.index),
        worker := Signalling))
    case Signal =>
      if !s.worker.Signalling? then None
      else Some(Exit(s.(stop := if s.stop.Some? then Some(true) else None)))
    case Panic =>
      if !s.worker.Counted? || s.winner.Some? then None else Some(Exit(s.(panicked := true)))
    case _ => None
  }

  function FinisherStep(s: State, a: Action): Option<State> {
    match a
    case CallFinish => if s.finisher.NotCalled? then Some(s.(finisher := Sending)) else None
    case SendFinish =>
      if !s.finisher.Sending? then None
      else if s.worker.Exited? then Some(s.(finisher := Joining))
      else if |s.channel| < MAX_QUEUED_CANDIDATES then Some(s.(channel := s.channel + [Finish], finisher := Joining))
      else None
    case Join =>
      if !s.finisher.Joining? || !s.worker.Exited? then None
      else Some(s.(finisher := Finished(s.telemetry), failed := s.failed || s.panicked))
    case _ => None
  }

  predicate BySubmitter(a: Action) { a.Enter? || a.Reserve? || a.TrySend? || a.Undo? || a.Report? || a.ReadFlag? }

  predicate ByFinisher(a: Action) { a.CallFinish? || a.SendFinish? || a.Join? }

  /** One atomic step; `None` when the action is not enabled. */
  function Step(s: State, a: Action): Option<State> {
    if BySubmitter(a) then (if a.t < |s.submitters| then SubmitterStep(s, a.t, a) else None)
    else if ByFinisher(a) then FinisherStep(s, a)
    else if a.RegisterStopFlag? then Some(s.(stop := Some(false)))
    else WorkerStep(s, a)
  }

  /** An interleaving from `s`. */
  function Run(s: State, actions: seq<Action>): Option<State>
    decreases |actions|
  {
    if actions == [] then Some(s) else
    match Step(s, actions[0])
    case None => None
    case Some(s2) => Run(s2, actions[1..])
  }

  // ----- accounting

  function Held(p: Submitter): nat { if p.Reserved? || p.SendFailed? then p.bytes else 0 }

  function InFlight(ps: seq<Submitter>): nat { if ps == [] then 0 else Held(ps[0]) + InFlight(ps[1..]) }

  function ChannelBytes(c: seq<Message>): nat {
    if c == [] then 0 else (if c[0].Candidate? then c[0].bytes else 0) + ChannelBytes(c[1..])
  }

  function WorkerBytes(w: Worker): nat { if w.Received? then w.bytes else 0 }

  lemma {:induction false} InFlightSet(ps: seq<Submitter>, t: nat, p: Submitter)
    requires t < |ps|
    ensures InFlight(ps[t := p]) == InFlight(ps) - Held(ps[t]) + Held(p)
  {
    if t == 0 {
      assert ps[0 := p][1..] == ps[1..];
    } else {
      InFlightSet(ps[1..], t - 1, p);
      assert ps[t := p][1..] == ps[1..][t - 1 := p];
    }
  }

  lemma {:induction false} ChannelAppend(c: seq<Message>, m: Message)
    ensures ChannelBytes(c + [m]) == ChannelBytes(c) + if m.Candidate? then m.bytes else 0
  {
    if c == [] {
      assert c + [m] == [m] && [m][1..] == [];
    } else {
      ChannelAppend(c[1..], m);
      assert (c + [m])[1..] == c[1..] + [m];
    }
  }

  function One(b: bool): nat { if b then 1 else 0 }

  /** The queue: the byte counter is what submitters and the worker hold, what the channel holds,
      and what went down with the receiver; it never exceeds the cap. */
  ghost predicate BytesOk(s: State) {
    && s.queued == InFlight(s.submitters) + ChannelBytes(s.channel) + WorkerBytes(s.worker) + s.leaked
    && s.queued <= MAX_QUEUED_PROOF_BYTES
    && |s.channel| <= MAX_QUEUED_CANDIDATES
    && (if s.worker.Exited? then s.channel == [] else s.leaked == 0)
  }

  /** A counted candidate has been rejected, certified, or is in the worker's hands; a panic loses one. */
  predicate Balanced(t: Telemetry, open: nat) {
    t.candidates == t.rejections + One(t.certifiedIndex.Some?) + open
  }

  ghost predicate CountsOk(s: State) {
    && Balanced(s.telemetry, One(s.worker.Counted? || s.worker.Judged?) + One(s.panicked))
    && s.telemetry.certifiedIndex == s.winner
    && (s.winner.Some? ==> (s.worker.Signalling? || s.worker.Exited?) && !s.panicked)
    && (s.worker.Signalling? ==> s.winner.Some?)
    && (s.panicked ==> s.worker.Exited?)
  }

  predicate OneOverload(reasons: seq<Reason>) {
    forall i, j :: 0 <= i < j < |reasons| && reasons[i] == Overload ==> reasons[j] != Overload
  }

  /** The stop flag, and every call that reported it, comes after the stored winner. */
  ghost predicate StopOk(s: State) {
    && (s.stop == Some(true) ==> s.winner.Some?)
    && (forall t :: 0 <= t < |s.submitters| && s.submitters[t] == Outside(true) ==> s.winner.Some?)
  }

  ghost predicate FinishOk(s: State) {
    && (s.finisher.Joining? ==> s.worker.Exited? || Finish in s.channel)
    && (s.finisher.Finished? ==> s.worker.Exited? && Balanced(s.finisher.snapshot, One(s.panicked)))
    && (s.finisher.Finished? ==> s.finisher.snapshot.certifiedIndex == s.winner)
  }

  ghost predicate Inv(s: State) {
    BytesOk(s) && CountsOk(s) && StopOk(s) && FinishOk(s) && OneOverload(s.telemetry.reasons)
  }

  lemma InitInv(n: nat, spawned: bool)
    ensures Inv(Init(n, spawned))
  {
    AllOutside(n);
  }

  lemma {:induction false} AllOutside(n: nat)
    ensures InFlight(seq(n, _ => Outside(false))) == 0
  {
    if n > 0 {
      AllOutside(n - 1);
      assert seq(n, _ => Outside(false))[1..] == seq(n - 1, _ => Outside(false));
    }
  }

  lemma SubmitterBytes(s: State, t: nat, a: Action)
    requires BytesOk(s) && t < |s.submitters| && SubmitterStep(s, t, a).Some?
    ensures BytesOk(SubmitterStep(s, t, a).value)
  {
    if a.TrySend? { SendBytes(s, t); } else { KeepBytes(s, t, a); }
  }

  lemma SendBytes(s: State, t: nat)
    requires BytesOk(s) && t < |s.submitters| && s.submitters[t].Reserved?
    ensures BytesOk(SubmitterStep(s, t, TrySend(t)).value)
  {
    var b := s.submitters[t].bytes;
    InFlightSet(s.submitters, t, Leaving);
    InFlightSet(s.submitters, t, SendFailed(b));
    ChannelAppend(s.channel, Candidate(b));
  }

  /** Every other submitter step leaves the channel alone. */
  lemma KeepBytes(s: State, t: nat, a: Action)
    requires BytesOk(s) && t < |s.submitters| && !a.TrySend? && SubmitterStep(s, t, a).Some?
    ensures BytesOk(SubmitterStep(s, t, a).value)
  {
    KeepBalance(s, t, a);
    InFlightSet(s.submitters, t, SubmitterStep(s, t, a).value.submitters[t]);
  }

  lemma KeepBalance(s: State, t: nat, a: Action)
    requires t < |s.submitters| && !a.TrySend? && SubmitterStep(s, t, a).Some?
    ensures var s2 := SubmitterStep(s, t, a).value;
      && |s2.submitters| == |s.submitters| && s2.submitters == s.submitters[t := s2.submitters[t]]
      && s2.channel == s.channel && s2.worker == s.worker && s2.leaked == s.leaked
      && s2.queued == s.queued - Held(s.submitters[t]) + Held(s2.submitters[t])
      && (s2.queued <= s.queued || s2.queued <= MAX_QUEUED_PROOF_BYTES)
  {
  }

  lemma SubmitterCounts(s: State, t: nat, a: Action)
    requires Inv(s) && t < |s.submitters| && SubmitterStep(s, t, a).Some?
    ensures CountsOk(SubmitterStep(s, t, a).value) && OneOverload(SubmitterStep(s, t, a).value.telemetry.reasons)
  {
  }

  lemma SubmitterStop(s: State, t: nat, a: Action)
    requires Inv(s) && t < |s.submitters| && SubmitterStep(s, t, a).Some?
    ensures StopOk(SubmitterStep(s, t, a).value) && FinishOk(SubmitterStep(s, t, a).value)
  {
    SubmitterFinish(s, t, a);
  }

  lemma SubmitterFinish(s: State, t: nat, a: Action)
    requires FinishOk(s) && t < |s.submitters| && SubmitterStep(s, t, a).Some?
    ensures FinishOk(SubmitterStep(s, t, a).value)
  {
  }

  lemma SubmitterInv(s: State, t: nat, a: Action)
    requires Inv(s) && t < |s.submitters| && SubmitterStep(s, t, a).Some?
    ensures Inv(SubmitterStep(s, t, a).value)
  {
    SubmitterBytes(s, t, a);
    SubmitterCounts(s, t, a);
    SubmitterStop(s, t, a);
  }

  lemma WorkerBytesOk(s: State, a: Action)
    requires Inv(s) && WorkerStep(s, a).Some?
    ensures BytesOk(WorkerStep(s, a).value)
  {
  }

  lemma WorkerCounts(s: State, a: Action)
    requires Inv(s) && WorkerStep(s, a).Some?
    ensures CountsOk(WorkerStep(s, a).value) && OneOverload(WorkerStep(s, a).value.telemetry.reasons)
  {
  }

  lemma WorkerInv(s: State, a: Action)
    requires Inv(s) && WorkerStep(s, a).Some?
    ensures Inv(WorkerStep(s, a).value)
  {
    WorkerBytesOk(s, a);
    WorkerCounts(s, a);
    assert StopOk(WorkerStep(s, a).value);
    assert FinishOk(WorkerStep(s, a).value);
  }

  lemma FinisherInv(s: State, a: Action)
    requires Inv(s) && FinisherStep(s, a).Some?
    ensures Inv(FinisherStep(s, a).value)
  {
    ChannelAppend(s.channel, Finish);
  }

  lemma StepInv(s: State, a: Action)
    requires Inv(s) && Step(s, a).Some?
    ensures Inv(Step(s, a).value)
  {
    if BySubmitter(a) { SubmitterInv(s, a.t, a); }
    else if ByFinisher(a) { FinisherInv(s, a); }
    else if !a.RegisterStopFlag? { WorkerInv(s, a); }
  }

  lemma {:induction false} RunInv(s: State, actions: seq<Action>)
    requires Inv(s) && Run(s, actions).Some?
    ensures Inv(Run(s, actions).value)
    decreases |actions|
  {
    if actions != [] {
      StepInv(s, actions[0]);
      RunInv(Step(s, actions[0]).value, actions[1..]);
    }
  }

  // ----- the theorems

  /** `actions` is an interleaving of the whole system that ends in `s`. */
  ghost predicate Reaches(n: nat, spawned: bool, actions: seq<Action>, s: State) {
    Run(Init(n, spawned), actions) == Some(s)
  }

  lemma ReachableInv(n: nat, spawned: bool, actions: seq<Action>, s: State)
    requires Reaches(n, spawned, actions, s)
    ensures Inv(s)
  {
    InitInv(n, spawned);
    RunInv(Init(n, spawned), actions);
  }

  /** In every interleaving the queued bytes stay within the cap; until the receiver is dropped they
      are exactly the bytes in the channel and the reservations in flight. */
  lemma QueueBounded(n: nat, spawned: bool, actions: seq<Action>, s: State)
    requires Reaches(n, spawned, actions, s)
    ensures 0 <= s.queued <= MAX_QUEUED_PROOF_BYTES && |s.channel| <= MAX_QUEUED_CANDIDATES
    ensures !s.worker.Exited? ==> s.queued == ChannelBytes(s.channel) + InFlight(s.submitters) + WorkerBytes(s.worker)
  {
    ReachableInv(n, spawned, actions, s);
  }

  /** The number of `Certify` steps. */
  function Certifications(actions: seq<Action>): nat {
    if actions == [] then 0 else One(actions[0].Certify?) + Certifications(actions[1..])
  }

  lemma StepWinner(s: State, a: Action)
    requires Inv(s) && Step(s, a).Some?
    ensures var s2 := Step(s, a).value;
      One(s2.winner.Some?) == One(s.winner.Some?) + One(a.Certify?) && (s.winner.Some? ==> s2.winner == s.winner)
  {
    if ByWorker(a) { WorkerWinner(s, a); }
  }

  lemma WorkerWinner(s: State, a: Action)
    requires CountsOk(s) && WorkerStep(s, a).Some?
    ensures var s2 := WorkerStep(s, a).value;
      One(s2.winner.Some?) == One(s.winner.Some?) + One(a.Certify?) && (s.winner.Some? ==> s2.winner == s.winner)
  {
  }

  lemma {:induction false} WinnerCounts(s: State, actions: seq<Action>)
    requires Inv(s) && Run(s, actions).Some?
    ensures One(Run(s, actions).value.winner.Some?) == One(s.winner.Some?) + Certifications(actions)
    ensures s.winner.Some? ==> Run(s, actions).value.winner == s.winner
    decreases |actions|
  {
    if actions != [] {
      StepInv(s, actions[0]);
      StepWinner(s, actions[0]);
      WinnerCounts(Step(s, actions[0]).value, actions[1..]);
    }
  }

  /** At most one candidate is certified, and the stop flag, and any `true` returned to a submitter,
      follows the stored winner. */
  lemma CertifiedOnce(n: nat, spawned: bool, actions: seq<Action>, s: State)
    requires Reaches(n, spawned, actions, s)
    ensures Certifications(actions) == One(s.winner.Some?)
    ensures s.stop == Some(true) ==> s.winner.Some?
    ensures forall t :: 0 <= t < |s.submitters| && s.submitters[t] == Outside(true) ==> s.winner.Some?
  {
    InitInv(n, spawned);
    CertifiedFrom(Init(n, spawned), actions, s);
  }

  lemma CertifiedFrom(s0: State, actions: seq<Action>, s: State)
    requires Inv(s0) && s0.winner.None? && Run(s0, actions) == Some(s)
    ensures Certifications(actions) == One(s.winner.Some?) && Inv(s)
  {
    RunInv(s0, actions);
    WinnerCounts(s0, actions);
  }

  // ----- what is sent arrives, in order, and nothing is refused without need

  /** A submitter is turned away only when its bytes do not fit beside those already held, and a send
      fails only when the queue is full or the worker is gone. */
  lemma RefusedForCause(s: State, t: nat)
    requires Inv(s) && t < |s.submitters|
    ensures s.submitters[t].Entered? ==>
      var held := InFlight(s.submitters) + ChannelBytes(s.channel) + WorkerBytes(s.worker) + s.leaked;
      var after := Step(s, Reserve(t));
      && after.Some?
      && (after.value.submitters[t].Refused? <==> held + s.submitters[t].bytes > 64 * 1024 * 1024)
      && (after.value.submitters[t].Reserved? <==> held + s.submitters[t].bytes <= 64 * 1024 * 1024)
    ensures s.submitters[t].Reserved? ==>
      var after := Step(s, TrySend(t));
      && after.Some?
      && (after.value.submitters[t].SendFailed? <==> s.worker.Exited? || |s.channel| == 8)
      && (after.value.submitters[t].Leaving? <==> !s.worker.Exited? && |s.channel| < 8)
  {
  }

  /** What one step puts into the channel: the candidate of a submitter whose send did not fail, and
      the end marker of `finish` while the worker is there. */
  function SentBy(s: State, a: Action): seq<Message>
    requires Step(s, a).Some?
  {
    if a.TrySend? && Step(s, a).value.submitters[a.t].Leaving? then [Candidate(s.submitters[a.t].bytes)]
    else if a.SendFinish? && !s.worker.Exited? then [Finish]
    else []
  }

  /** What one step takes out: a candidate the worker then holds, or the end marker, on which it exits. */
  function TakenBy(s: State, a: Action): seq<Message>
    requires Step(s, a).Some?
  {
    var w := Step(s, a).value.worker;
    if !a.Recv? then [] else if w.Received? then [Candidate(w.bytes)] else [Finish]
  }

  function Sent(s: State, actions: seq<Action>): seq<Message>
    decreases |actions|
  {
    if actions == [] || Step(s, actions[0]).None? then []
    else SentBy(s, actions[0]) + Sent(Step(s, actions[0]).value, actions[1..])
  }

  function Taken(s: State, actions: seq<Action>): seq<Message>
    decreases |actions|
  {
    if actions == [] || Step(s, actions[0]).None? then []
    else TakenBy(s, actions[0]) + Taken(Step(s, actions[0]).value, actions[1..])
  }

  /** Without the worker nothing is sent or taken any more. */
  lemma {:induction false} NothingAfterExit(s: State, actions: seq<Action>)
    requires s.worker.Exited? && Run(s, actions).Some?
    ensures Run(s, actions).value.worker.Exited? && Sent(s, actions) == [] == Taken(s, actions)
    decreases |actions|
  {
    if actions != [] { NothingAfterExit(Step(s, actions[0]).value, actions[1..]); }
  }

  /** What is taken is first among what was queued and what is sent; the rest is queued, or gone with
      the worker. */
  ghost predicate InOrder(queue: seq<Message>, sent: seq<Message>, taken: seq<Message>, s: State) {
    taken <= queue + sent && (!s.worker.Exited? ==> queue + sent == taken + s.channel)
  }

  lemma {:induction false} FifoFrom(s: State, actions: seq<Action>)
    requires Inv(s) && Run(s, actions).Some?
    ensures InOrder(s.channel, Sent(s, actions), Taken(s, actions), Run(s, actions).value)
    decreases |actions|
  {
    if actions == [] {
      assert s.channel + [] == s.channel == [] + s.channel;
    } else {
      var a, s1, rest := actions[0], Step(s, actions[0]).value, actions[1..];
      StepInv(s, a);
      FifoStep(s, a);
      if s1.worker.Exited? { NothingAfterExit(s1, rest); } else { FifoFrom(s1, rest); }
      InOrderAdd(s.channel, SentBy(s, a), TakenBy(s, a), s1, Sent(s1, rest), Taken(s1, rest), Run(s, actions).value);
    }
  }

  lemma FifoStep(s: State, a: Action)
    requires Inv(s) && Step(s, a).Some?
    ensures InOrder(s.channel, SentBy(s, a), TakenBy(s, a), Step(s, a).value)
  {
    if ByWorker(a) { WorkerTakes(s, a); } else { OthersSend(s, a); }
  }

  lemma WorkerTakes(s: State, a: Action)
    requires Inv(s) && ByWorker(a) && Step(s, a).Some?
    ensures InOrder(s.channel, SentBy(s, a), TakenBy(s, a), Step(s, a).value)
  {
  }

  lemma OthersSend(s: State, a: Action)
    requires Inv(s) && !ByWorker(a) && Step(s, a).Some?
    ensures InOrder(s.channel, SentBy(s, a), TakenBy(s, a), Step(s, a).value)
  {
  }

  lemma InOrderAdd(queue: seq<Message>, sent: seq<Message>, taken: seq<Message>, s1: State, sent1: seq<Message>,
                   taken1: seq<Message>, s2: State)
    requires InOrder(queue, sent, taken, s1)
    requires if s1.worker.Exited? then s2.worker.Exited? && sent1 == [] == taken1
      else InOrder(s1.channel, sent1, taken1, s2)
    ensures InOrder(queue, sent + sent1, taken + taken1, s2)
  {
    if s1.worker.Exited? {
      assert sent + [] == sent && taken + [] == taken;
    } else {
      assert queue + (sent + sent1) == (queue + sent) + sent1 == taken + (s1.channel + sent1);
      if !s2.worker.Exited? { assert taken + (taken1 + s2.channel) == (taken + taken1) + s2.channel; }
    }
  }

  /** First in, first out, and nothing is lost while the worker is there: what was sent is what it has
      taken followed by what is queued. */
  lemma Fifo(n: nat, spawned: bool, actions: seq<Action>, s: State)
    requires Reaches(n, spawned, actions, s)
    ensures Taken(Init(n, spawned), actions) <= Sent(Init(n, spawned), actions)
    ensures !s.worker.Exited? ==> Sent(Init(n, spawned), actions) == Taken(Init(n, spawned), actions) + s.channel
  {
    InitInv(n, spawned);
    FifoEmpty(Init(n, spawned), actions, s);
  }

  lemma FifoEmpty(s0: State, actions: seq<Action>, s: State)
    requires Inv(s0) && s0.channel == [] && Run(s0, actions) == Some(s)
    ensures Taken(s0, actions) <= Sent(s0, actions)
    ensures !s.worker.Exited? ==> Sent(s0, actions) == Taken(s0, actions) + s.channel
  {
    FifoFrom(s0, actions);
    assert [] + Sent(s0, actions) == Sent(s0, actions);
  }

  // ----- a certified verdict becomes the winner, and the stop flag rises

  /** How often `a` occurs in an interleaving. */
  function Occurs(actions: seq<Action>, a: Action): nat {
    if actions == [] then 0 else One(actions[0] == a) + Occurs(actions[1..], a)
  }

  predicate Rejects(a: Action) { a.Report? || a.RejectForTime? || a.RejectVerdict? }

  /** Rejections counted by submitters and by the worker. */
  function RejectionSteps(actions: seq<Action>): nat {
    if actions == [] then 0 else One(Rejects(actions[0])) + RejectionSteps(actions[1..])
  }

  /** What one step does to verdicts, to the number of candidates taken and to the rejections. */
  ghost predicate VerdictStep(s: State, s2: State, a: Action) {
    && One(s2.winner.Some?) + One(s2.worker == Judged(true)) ==
      One(s.winner.Some?) + One(s.worker == Judged(true)) + One(a == Judge(true))
    && One(s2.worker == Judged(false)) + One(a == RejectVerdict) ==
      One(s.worker == Judged(false)) + One(a == Judge(false))
    && s2.index == s.index + One(a == Count)
    && s2.telemetry.rejections == s.telemetry.rejections + One(Rejects(a))
    && (s.winner.Some? ==> s2.winner == s.winner && a != Count)
    && (s.winner.None? && s2.winner.Some? ==> s2.winner == Some(s2.index))
  }

  lemma WorkerVerdicts(s: State, a: Action)
    requires CountsOk(s) && ByWorker(a) && WorkerStep(s, a).Some?
    ensures VerdictStep(s, WorkerStep(s, a).value, a)
  {
  }

  lemma StepVerdicts(s: State, a: Action)
    requires Inv(s) && Step(s, a).Some?
    ensures VerdictStep(s, Step(s, a).value, a)
  {
    if ByWorker(a) { WorkerVerdicts(s, a); }
    else if BySubmitter(a) { SubmitterVerdicts(s, a.t, a); }
    else if ByFinisher(a) { FinisherVerdicts(s, a); }
  }

  lemma SubmitterVerdicts(s: State, t: nat, a: Action)
    requires CountsOk(s) && BySubmitter(a) && t < |s.submitters| && SubmitterStep(s, t, a).Some?
    ensures VerdictStep(s, SubmitterStep(s, t, a).value, a)
  {
  }

  lemma FinisherVerdicts(s: State, a: Action)
    requires CountsOk(s) && ByFinisher(a) && FinisherStep(s, a).Some?
    ensures VerdictStep(s, FinisherStep(s, a).value, a)
  {
  }

  /** The same for a whole interleaving. */
  ghost predicate VerdictRun(s: State, s2: State, actions: seq<Action>) {
    && One(s2.winner.Some?) + One(s2.worker == Judged(true)) ==
      One(s.winner.Some?) + One(s.worker == Judged(true)) + Occurs(actions, Judge(true))
    && One(s2.worker == Judged(false)) + Occurs(actions, RejectVerdict) ==
      One(s.worker == Judged(false)) + Occurs(actions, Judge(false))
    && s2.index == s.index + Occurs(actions, Count)
    && s2.telemetry.rejections == s.telemetry.rejections + RejectionSteps(actions)
    && (s2.winner.Some? ==> s2.winner == Some(s2.index))
  }

  lemma {:induction false} RunVerdicts(s: State, actions: seq<Action>)
    requires Inv(s) && Run(s, actions).Some? && (s.winner.Some? ==> s.winner == Some(s.index))
    ensures VerdictRun(s, Run(s, actions).value, actions)
    decreases |actions|
  {
    if actions != [] {
      StepInv(s, actions[0]);
      var s1 := Step(s, actions[0]).value;
      StepVerdicts(s, actions[0]);
      RunVerdicts(s1, actions[1..]);
      VerdictsAdd(s, s1, Run(s, actions).value, actions);
    }
  }

  lemma VerdictsAdd(s: State, s1: State, s2: State, actions: seq<Action>)
    requires actions != [] && VerdictStep(s, s1, actions[0]) && VerdictRun(s1, s2, actions[1..])
    ensures VerdictRun(s, s2, actions)
  {
  }

  lemma VerdictsFrom(s0: State, actions: seq<Action>, s: State)
    requires Inv(s0) && Run(s0, actions) == Some(s)
    requires s0.winner.None? && !s0.worker.Judged? && s0.index == 0 && s0.telemetry.rejections == 0
    ensures Occurs(actions, Judge(true)) == One(s.winner.Some?) + One(s.worker == Judged(true))
    ensures Occurs(actions, Judge(false)) == Occurs(actions, RejectVerdict) + One(s.worker == Judged(false))
    ensures s.index == Occurs(actions, Count) && (s.winner.Some? ==> s.winner == Some(s.index))
    ensures s.telemetry.rejections == RejectionSteps(actions)
  {
    RunVerdicts(s0, actions);
  }

  /** Every certified verdict is stored as the winner, or still in the worker's hands; the winner is
      the number of candidates taken up until then; every failed verdict is rejected, and the
      rejections are exactly those reported. */
  lemma VerdictStands(n: nat, spawned: bool, actions: seq<Action>, s: State)
    requires Reaches(n, spawned, actions, s)
    ensures Occurs(actions, Judge(true)) == One(s.winner.Some?) + One(s.worker == Judged(true))
    ensures Occurs(actions, Judge(false)) == Occurs(actions, RejectVerdict) + One(s.worker == Judged(false))
    ensures s.index == Occurs(actions, Count) && (s.winner.Some? ==> s.winner == Some(Occurs(actions, Count)))
    ensures s.telemetry.rejections == RejectionSteps(actions)
  {
    InitInv(n, spawned);
    VerdictsFrom(Init(n, spawned), actions, s);
  }

  /** After a certified verdict the worker can only store it, raise the flag and exit. */
  lemma AfterVerdict(s: State, a: Action)
    requires Inv(s) && ByWorker(a) && Step(s, a).Some?
    ensures s.worker == Judged(true) ==> a == Certify && Step(s, a).value.winner == Some(s.index)
    ensures s.worker.Signalling? ==> a == Signal && Step(s, a).value.worker.Exited?
    ensures s.worker.Signalling? && s.stop.Some? ==> Step(s, a).value.stop == Some(true)
  {
  }

  lemma {:induction false} RunSplit(s: State, p: seq<Action>, q: seq<Action>)
    ensures Run(s, p + q) == match Run(s, p) case None => None case Some(s2) => Run(s2, q)
    decreases |p|
  {
    if p == [] {
      assert p + q == q;
    } else {
      assert (p + q)[1..] == p[1..] + q;
      if Step(s, p[0]).Some? { RunSplit(Step(s, p[0]).value, p[1..], q); }
    }
  }

  /** A registered flag stays registered, and until another one is registered it stays up. */
  lemma {:induction false} FlagKept(s: State, actions: seq<Action>)
    requires Run(s, actions).Some?
    ensures s.stop.Some? || RegisterStopFlag in actions ==> Run(s, actions).value.stop.Some?
    ensures s.stop == Some(true) && RegisterStopFlag !in actions ==> Run(s, actions).value.stop == Some(true)
    decreases |actions|
  {
    if actions != [] { FlagKept(Step(s, actions[0]).value, actions[1..]); }
  }

  /** Once the worker has signalled, the flag registered before is up, and every submitter that then
      reads it is told to stop. */
  lemma FlagRises(n: nat, spawned: bool, before: seq<Action>, after: seq<Action>, s: State, t: nat)
    requires Reaches(n, spawned, before + [Signal] + after, s)
    requires RegisterStopFlag in before && RegisterStopFlag !in after
    ensures s.winner.Some? && s.stop == Some(true)
    ensures t < |s.submitters| && s.submitters[t].Leaving? ==>
      Step(s, ReadFlag(t)).Some? && Step(s, ReadFlag(t)).value.submitters[t] == Outside(true)
  {
    var s0 := Init(n, spawned);
    RunSplit(s0, before + [Signal], after);
    RunSplit(s0, before, [Signal]);
    FlagKept(s0, before);
    var s1 := Run(s0, before).value;
    assert Run(s1, [Signal]) == Step(s1, Signal) by { assert [Signal][1..] == []; }
    FlagKept(Step(s1, Signal).value, after);
    ReachableInv(n, spawned, before + [Signal] + after, s);
  }

  /** What `finish` returns: candidates are rejections plus the certified one, if and only if the
      worker did not panic in the middle of one. */
  lemma FinishBalanced(n: nat, spawned: bool, actions: seq<Action>, s: State)
    requires Reaches(n, spawned, actions, s) && s.finisher.Finished?
    ensures var tele := s.finisher.snapshot;
      && (tele.candidates == tele.rejections + One(tele.certifiedIndex.Some?) <==> !s.panicked)
      && tele.certifiedIndex == s.winner
  {
    ReachableInv(n, spawned, actions, s);
  }

  // ----- `finish` returns

  /** The place of the first `Finish`, or the length of the channel. */
  function FinishAt(c: seq<Message>): (k: nat)
    ensures k <= |c| && (Finish in c <==> k < |c|)
  {
    if c == [] || c[0].Finish? then 0 else 1 + FinishAt(c[1..])
  }

  lemma {:induction false} FinishAtAppend(c: seq<Message>, m: Message)
    requires Finish in c
    ensures FinishAt(c + [m]) == FinishAt(c)
  {
    if !c[0].Finish? {
      FinishAtAppend(c[1..], m);
      assert (c + [m])[1..] == c[1..] + [m];
    } else {
      assert (c + [m])[0] == c[0];
    }
  }

  function PhaseRank(w: Worker): nat {
    match w
    case Waiting => 1
    case Received(_) => 6
    case Released => 5
    case Counted => 4
    case Judged(_) => 3
    case Signalling => 2
    case Exited => 0
  }

  /** The number of steps the worker and `finish` can still take, at most. */
  function Rank(s: State): nat {
    One(s.finisher.Joining?) + PhaseRank(s.worker) + if s.worker.Exited? then 0 else 6 * FinishAt(s.channel)
  }

  predicate ByWorker(a: Action) { !BySubmitter(a) && !ByFinisher(a) && !a.RegisterStopFlag? }

  /** Once `finish` has queued its message, every step of the worker or of `finish` brings the end
      nearer, and no submitter can push it away. */
  lemma FinishNears(s: State, a: Action)
    requires Inv(s) && s.finisher.Joining? && Step(s, a).Some?
    ensures ByWorker(a) || ByFinisher(a) ==> Rank(Step(s, a).value) < Rank(s)
    ensures BySubmitter(a) || a.RegisterStopFlag? ==> Rank(Step(s, a).value) <= Rank(s)
  {
    if BySubmitter(a) { SubmitterNears(s, a.t, a); }
  }

  lemma SubmitterNears(s: State, t: nat, a: Action)
    requires Inv(s) && s.finisher.Joining? && t < |s.submitters| && SubmitterStep(s, t, a).Some?
    ensures Rank(SubmitterStep(s, t, a).value) <= Rank(s)
  {
    if a.TrySend? && Finish in s.channel { FinishAtAppend(s.channel, Candidate(s.submitters[t].bytes)); }
  }

  /** Neither the blocking send nor the join can deadlock: a worker or finisher step is enabled. */
  lemma FinishNeverStuck(s: State) returns (a: Action)
    requires Inv(s) && (s.finisher.Sending? || s.finisher.Joining?)
    ensures (ByWorker(a) || ByFinisher(a)) && Step(s, a).Some?
  {
    match s.worker
    case Waiting =>
      a := if s.finisher.Sending? && |s.channel| < MAX_QUEUED_CANDIDATES then SendFinish else Recv;
    case Received(_) => a := Release;
    case Released => a := Count;
    case Counted => a := Judge(false);
    case Judged(ok) => a := if ok then Certify else RejectVerdict;
    case Signalling => a := Signal;
    case Exited => a := if s.finisher.Sending? then SendFinish else Join;
  }
}
