/**
The approval state machine in front of the edit engine (edit_access.rs):
pending previews, evidence, and the calls that reach `EditEngine::apply`.
Preview, transaction and decision ids are drawn from counters.
*/
module EditAccess {
  import opened Results

  datatype Decision = Allowed | NeedsReview | Denied

  datatype EvidenceOutcome = ValidationFailed | ApplyStarted | Completed | Failed

  datatype Evidence =
    | PermissionRecorded(decisionId: nat, decision: Decision, reason: string, userOverride: bool)
    | TransactionPrepared(transaction: nat)
    | TransactionFinished(finished: Option<nat>, outcome: EvidenceOutcome, note: string)

  datatype Freshness = Freshness(policyRevision: nat, authorizationRevision: nat, reviewerGeneration: nat)

  /** A pending preview with the values captured when it was prepared. */
  datatype Pending = Pending(transaction: nat, decisionId: nat, decision: Decision, captured: Freshness)

  /** One call of the edit engine; `durable` is how much evidence was persisted before it. */
  datatype EngineCall = EngineCall(preview: nat, transaction: nat, viaSink: bool, checked: bool, durable: nat)

  datatype State = State(pending: map<nat, Pending>, nextPreview: nat, nextTransaction: nat, nextDecision: nat,
                         log: seq<Evidence>, persisted: seq<Evidence>, calls: seq<EngineCall>)

  const INITIAL := State(map[], 0, 0, 0, [], [], [])

  datatype Reply =
    | Previewed(preview: nat, decisionId: nat)
    | PermissionDenied
    | PreviewFailed
    | AppliedOk(evidencePersisted: bool)
    | ApplyFailed
    | RejectedOk
    | PreviewNotFound
    | DecisionMismatch
    | StaleAuthorization
    | EvidencePersistFailed

  /** Whether an append to the sink succeeds; a failed one leaves any prefix behind. */
  datatype SinkFault = SinkOk | SinkFails(written: nat)

  function Appended(persisted: seq<Evidence>, events: seq<Evidence>, fault: SinkFault): seq<Evidence> {
    match fault
    case SinkOk => persisted + events
    case SinkFails(n) => persisted + (if n <= |events| then events[..n] else events)
  }

  /** A failing sink may leave any part of what it was given, from the first event on; a working one leaves all. */
  lemma AppendedExactly(persisted: seq<Evidence>, events: seq<Evidence>, n: nat)
    ensures Appended(persisted, events, SinkOk) == persisted + events
    ensures n <= |events| ==> Appended(persisted, events, SinkFails(n)) == persisted + events[..n]
    ensures persisted <= Appended(persisted, events, SinkFails(n)) <= persisted + events
  {
  }

  /** `record_permission_override`: only for decisions that were put to the user. */
  function Override(p: Pending, decision: Decision, reason: string, userOverride: bool): seq<Evidence> {
    if p.decision.NeedsReview? then [PermissionRecorded(p.decisionId, decision, reason, userOverride)] else []
  }

  /** What is persisted ahead of an engine call. */
  function Intent(transaction: nat): Evidence {
    TransactionFinished(Some(transaction), ApplyStarted, "apply_started")
  }

  datatype Stepped = Stepped(state: State, reply: Reply)

  // ---- The operations as transitions ----

  /** `prepare_with_diagnostics`; the decision and whether the engine's preview succeeds are given. */
  function PrepareStep(s: State, decision: Decision, previewOk: bool, policyRevision: nat,
                       authorization: nat): Stepped
  {
    var id := s.nextDecision;
    var recorded := s.(nextDecision := id + 1, log := s.log + [PermissionRecorded(id, decision, "", false)]);
    if decision.Denied? then Stepped(recorded, PermissionDenied)
    else if !previewOk then
      Stepped(recorded.(log := recorded.log + [TransactionFinished(None, ValidationFailed, "")]), PreviewFailed)
    else
      var entry := Pending(s.nextTransaction, id, decision, Freshness(policyRevision, authorization, 0));
      Stepped(
        recorded.(log := recorded.log + [TransactionPrepared(s.nextTransaction)],
                  pending := s.pending[s.nextPreview := entry],
                  nextPreview := s.nextPreview + 1, nextTransaction := s.nextTransaction + 1),
        Previewed(s.nextPreview, id))
  }

  /** Why an operation on a preview is refused before anything happens. */
  function Refusal(s: State, preview: nat, decisionId: nat): Option<Reply> {
    if preview !in s.pending then Some(PreviewNotFound)
    else if s.pending[preview].decisionId != decisionId then Some(DecisionMismatch)
    else None
  }

  function ApplyStep(s: State, preview: nat, decisionId: nat, engineOk: bool): Stepped {
    var refused := Refusal(s, preview, decisionId);
    if refused.Some? then Stepped(s, refused.value)
    else
      var p := s.pending[preview];
      var finished := TransactionFinished(Some(p.transaction), if engineOk then Completed else Failed, "");
      Stepped(
        s.(pending := s.pending - {preview},
           log := s.log + Override(p, Allowed, "user_approved", true) + [finished],
           calls := s.calls + [EngineCall(preview, p.transaction, false, false, |s.persisted|)]),
        if engineOk then AppliedOk(true) else ApplyFailed)
  }

  /** `apply_with_evidence_sink_and_freshness` */
  function SinkApplyStep(s: State, preview: nat, decisionId: nat, current: Option<Freshness>,
                         ahead: SinkFault, engineOk: bool, after: SinkFault): Stepped
  {
    var refused := Refusal(s, preview, decisionId);
    if refused.Some? then Stepped(s, refused.value)
    else
      var p := s.pending[preview];
      if current.Some? && current.value != p.captured then Stepped(s, StaleAuthorization)
      else
        var intent := Override(p, Allowed, "user_approved", true)
          + [Intent(p.transaction)];
        var written := Appended(s.persisted, intent, ahead);
        if ahead.SinkFails? then Stepped(s.(persisted := written), EvidencePersistFailed)
        else
          var finished := TransactionFinished(Some(p.transaction), if engineOk then Completed else Failed, "");
          Stepped(
            s.(pending := s.pending - {preview}, persisted := Appended(written, [finished], after),
               calls := s.calls + [EngineCall(preview, p.transaction, true, current.Some?, |written|)]),
            if engineOk then AppliedOk(after.SinkOk?) else ApplyFailed)
  }

  function RejectStep(s: State, preview: nat, decisionId: nat, reason: string, userOverride: bool): Stepped {
    var refused := Refusal(s, preview, decisionId);
    if refused.Some? then Stepped(s, refused.value)
    else
      var p := s.pending[preview];
      Stepped(
        s.(pending := s.pending - {preview},
           log := s.log + Override(p, Denied, reason, userOverride)
                  + [TransactionFinished(Some(p.transaction), Failed, reason)]),
        RejectedOk)
  }

  /** `rebind_reviewer_generation` */
  function RebindStep(s: State, preview: nat, generation: nat): State {
    if preview !in s.pending then s
    else
      var p := s.pending[preview];
      s.(pending := s.pending[preview := p.(captured := p.captured.(reviewerGeneration := generation))])
  }

  // ---- The class ----

  class Access {
    var pending: map<nat, Pending>
    var nextPreview: nat
    var nextTransaction: nat
    var nextDecision: nat
    var log: seq<Evidence>
    var persisted: seq<Evidence>
    ghost var calls: seq<EngineCall>

    ghost function View(): State
      reads this
    {
      State(pending, nextPreview, nextTransaction, nextDecision, log, persisted, calls)
    }

    constructor ()
      ensures View() == INITIAL
    {
      pending, nextPreview, nextTransaction, nextDecision, log, persisted, calls := map[], 0, 0, 0, [], [], [];
    }

    method Prepare(decision: Decision, previewOk: bool, policyRevision: nat, authorization: nat) returns (reply: Reply)
      modifies this
      ensures Stepped(View(), reply) == PrepareStep(old(View()), decision, previewOk, policyRevision, authorization)
    {
      var id := nextDecision;
      nextDecision := id + 1;
      log := log + [PermissionRecorded(id, decision, "", false)];
      if decision.Denied? {
        return PermissionDenied;
      }
      if !previewOk {
        log := log + [TransactionFinished(None, ValidationFailed, "")];
        return PreviewFailed;
      }
      var transaction, preview := nextTransaction, nextPreview;
      nextTransaction := nextTransaction + 1;
      log := log + [TransactionPrepared(transaction)];
      nextPreview := nextPreview + 1;
      pending := pending[preview := Pending(transaction, id, decision, Freshness(policyRevision, authorization, 0))];
      return Previewed(preview, id);
    }

    /** Takes the preview out, and puts it back when the decision does not match. */
    method Take(preview: nat, decisionId: nat) returns (r: Result<Pending, Reply>)
      modifies this`pending
      ensures
        var refused := Refusal(old(View()), preview, decisionId);
        if refused.Some? then r == Err(refused.value) && pending == old(pending)
        else r == Ok(old(pending)[preview]) && pending == old(pending) - {preview}
    {
      if preview !in pending {
        return Err(PreviewNotFound);
      }
      var entry := pending[preview];
      pending := pending - {preview};
      if entry.decisionId != decisionId {
        pending := pending[preview := entry];
        return Err(DecisionMismatch);
      }
      return Ok(entry);
    }

    method Apply(preview: nat, decisionId: nat, engineOk: bool) returns (reply: Reply)
      modifies this
      ensures Stepped(View(), reply) == ApplyStep(old(View()), preview, decisionId, engineOk)
    {
      var taken := Take(preview, decisionId);
      if taken.Err? {
        return taken.error;
      }
      var p := taken.value;
      log := log + Override(p, Allowed, "user_approved", true);
      calls := calls + [EngineCall(preview, p.transaction, false, false, |persisted|)];
      log := log + [TransactionFinished(Some(p.transaction), if engineOk then Completed else Failed, "")];
      return if engineOk then AppliedOk(true) else ApplyFailed;
    }

    method SinkApply(preview: nat, decisionId: nat, current: Option<Freshness>, ahead: SinkFault, engineOk: bool,
                     after: SinkFault)
      returns (reply: Reply)
      modifies this
      ensures Stepped(View(), reply) == SinkApplyStep(old(View()), preview, decisionId, current, ahead, engineOk, after)
    {
      var taken := Take(preview, decisionId);
      if taken.Err? {
        return taken.error;
      }
      var p := taken.value;
      if current.Some? {
        var stale := p.captured.policyRevision != current.value.policyRevision
          || p.captured.authorizationRevision != current.value.authorizationRevision
          || p.captured.reviewerGeneration != current.value.reviewerGeneration;
        if stale {
          pending := pending[preview := p];
          assert pending == old(pending);
          return StaleAuthorization;
        }
        assert current.value == p.captured;
      }
      var intent := Override(p, Allowed, "user_approved", true)
        + [Intent(p.transaction)];
      persisted := Appended(persisted, intent, ahead);
      if ahead.SinkFails? {
        pending := pending[preview := p];
        assert pending == old(pending);
        return EvidencePersistFailed;
      }
      calls := calls + [EngineCall(preview, p.transaction, true, current.Some?, |persisted|)];
      var finished := TransactionFinished(Some(p.transaction), if engineOk then Completed else Failed, "");
      persisted := Appended(persisted, [finished], after);
      return if engineOk then AppliedOk(after.SinkOk?) else ApplyFailed;
    }

    method Reject(preview: nat, decisionId: nat, reason: string, userOverride: bool) returns (reply: Reply)
      modifies this
      ensures Stepped(View(), reply) == RejectStep(old(View()), preview, decisionId, reason, userOverride)
    {
      var taken := Take(preview, decisionId);
      if taken.Err? {
        return taken.error;
      }
      var p := taken.value;
      log := log + Override(p, Denied, reason, userOverride)
        + [TransactionFinished(Some(p.transaction), Failed, reason)];
      return RejectedOk;
    }

    method Rebind(preview: nat, generation: nat) returns (found: bool)
      modifies this`pending
      ensures View() == RebindStep(old(View()), preview, generation) && found == (preview in old(pending))
    {
      if preview !in pending {
        return false;
      }
      var p := pending[preview];
      pending := pending[preview := p.(captured := p.captured.(reviewerGeneration := generation))];
      return true;
    }
  }

  // ---- Runs ----

  datatype Op =
    | Prepare(decision: Decision, previewOk: bool, policyRevision: nat, authorization: nat)
    | Apply(preview: nat, decisionId: nat, engineOk: bool)
    | SinkApply(preview: nat, decisionId: nat, current: Option<Freshness>, ahead: SinkFault, engineOk: bool,
                after: SinkFault)
    | Reject(preview: nat, decisionId: nat, reason: string, userOverride: bool)
    | Rebind(preview: nat, generation: nat)

  function Step(s: State, op: Op): State {
    match op
    case Prepare(decision, previewOk, policy, authorization) =>
      PrepareStep(s, decision, previewOk, policy, authorization).state
    case Apply(preview, decisionId, engineOk) => ApplyStep(s, preview, decisionId, engineOk).state
    case SinkApply(preview, decisionId, current, ahead, engineOk, after) =>
      SinkApplyStep(s, preview, decisionId, current, ahead, engineOk, after).state
    case Reject(preview, decisionId, reason, userOverride) =>
      RejectStep(s, preview, decisionId, reason, userOverride).state
    case Rebind(preview, generation) => RebindStep(s, preview, generation)
  }

  function Run(s: State, ops: seq<Op>): State {
    if ops == [] then s else Step(Run(s, ops[..|ops| - 1]), ops[|ops| - 1])
  }

  /** Ids are issued once, and what reached the engine is no longer pending. */
  ghost predicate IdsIssuedOnce(s: State) {
    && (forall p <- s.pending :: p < s.nextPreview && s.pending[p].transaction < s.nextTransaction)
    && (forall p <- s.pending, q <- s.pending :: p != q ==> s.pending[p].transaction != s.pending[q].transaction)
    && (forall c <- s.calls :: c.preview < s.nextPreview && c.transaction < s.nextTransaction)
    && (forall c <- s.calls, p <- s.pending :: c.preview != p && c.transaction != s.pending[p].transaction)
  }

  ghost predicate CalledOnce(s: State) {
    forall i, j :: 0 <= i < j < |s.calls| ==>
      s.calls[i].preview != s.calls[j].preview && s.calls[i].transaction != s.calls[j].transaction
  }

  /** A sink call's intent is in the evidence persisted before it. */
  ghost predicate IntentFirst(s: State) {
    forall c <- s.calls :: c.viaSink ==>
      && c.durable <= |s.persisted|
      && exists k :: 0 <= k < c.durable && s.persisted[k] == Intent(c.transaction)
  }

  /** One engine call takes its preview out of the pending map. */
  lemma CallKeepsIds(s: State, preview: nat, c: EngineCall, t: State)
    requires IdsIssuedOnce(s) && CalledOnce(s) && preview in s.pending
    requires c.preview == preview && c.transaction == s.pending[preview].transaction
    requires t.pending == s.pending - {preview} && t.calls == s.calls + [c]
    requires t.nextPreview == s.nextPreview && t.nextTransaction == s.nextTransaction
    ensures IdsIssuedOnce(t) && CalledOnce(t)
  {
    forall i, j | 0 <= i < j < |t.calls|
      ensures t.calls[i].preview != t.calls[j].preview && t.calls[i].transaction != t.calls[j].transaction
    {
      assert t.calls[i] == s.calls[i] && s.calls[i] in s.calls;
    }
  }

  /** What a step does to the pending map and to the engine. */
  lemma StepEffect(s: State, op: Op)
    ensures
      var t := Step(s, op);
      && s.nextPreview <= t.nextPreview && s.nextTransaction <= t.nextTransaction
      && (t.calls == s.calls || (op.Apply? || op.SinkApply?))
      && (t.calls != s.calls ==>
            && op.preview in s.pending && t.pending == s.pending - {op.preview}
            && t.nextPreview == s.nextPreview && t.nextTransaction == s.nextTransaction
            && |t.calls| == |s.calls| + 1 && t.calls == s.calls + [t.calls[|s.calls|]]
            && var c := t.calls[|s.calls|];
            && c.preview == op.preview && c.transaction == s.pending[op.preview].transaction
            && (c.checked ==> op.SinkApply? && op.current == Some(s.pending[op.preview].captured)))
  {
  }

  /** `t` has `s`'s pending previews, or some of them, and at most one newly issued. */
  ghost predicate IssuesAtMostOne(s: State, t: State) {
    && t.calls == s.calls && s.nextPreview <= t.nextPreview && s.nextTransaction <= t.nextTransaction
    && forall p <- t.pending ::
      || (p in s.pending && t.pending[p].transaction == s.pending[p].transaction)
      || (p == s.nextPreview < t.nextPreview && t.pending[p].transaction == s.nextTransaction < t.nextTransaction)
  }

  lemma QuietStep(s: State, op: Op)
    ensures Step(s, op).calls != s.calls || IssuesAtMostOne(s, Step(s, op))
  {
  }

  lemma QuietKeepsIds(s: State, t: State)
    requires IdsIssuedOnce(s) && CalledOnce(s) && IssuesAtMostOne(s, t)
    ensures IdsIssuedOnce(t) && CalledOnce(t)
  {
  }

  lemma StepKeepsIds(s: State, op: Op)
    requires IdsIssuedOnce(s) && CalledOnce(s)
    ensures IdsIssuedOnce(Step(s, op)) && CalledOnce(Step(s, op))
  {
    hide Step, IdsIssuedOnce, CalledOnce, IssuesAtMostOne;
    StepEffect(s, op);
    QuietStep(s, op);
    var t := Step(s, op);
    if t.calls != s.calls {
      CallKeepsIds(s, op.preview, t.calls[|s.calls|], t);
    } else {
      QuietKeepsIds(s, t);
    }
  }

  lemma StepKeepsIntent(s: State, op: Op)
    requires IntentFirst(s)
    ensures IntentFirst(Step(s, op))
  {
    var t := Step(s, op);
    assert s.persisted <= t.persisted;
    forall c <- t.calls | c.viaSink
      ensures c.durable <= |t.persisted|
        && exists k :: 0 <= k < c.durable && t.persisted[k] == Intent(c.transaction)
    {
      if c in s.calls {
        var k :| 0 <= k < c.durable && s.persisted[k] == Intent(c.transaction);
        assert t.persisted[k] == s.persisted[k];
      } else {
        assert t.persisted[c.durable - 1] == Intent(c.transaction);
      }
    }
  }

  /**
  Over every run of prepares, applies, rejections, rebinds and failing sinks: no
  preview and no transaction reaches the edit engine twice, and every engine call
  on the sink path comes after its own `ApplyStarted` in the persisted evidence.
  */
  lemma {:induction false} EngineCalledAtMostOnce(ops: seq<Op>)
    ensures var s := Run(INITIAL, ops); IdsIssuedOnce(s) && CalledOnce(s) && IntentFirst(s)
    decreases |ops|
  {
    if ops != [] {
      var n := |ops| - 1;
      EngineCalledAtMostOnce(ops[..n]);
      StepKeepsIds(Run(INITIAL, ops[..n]), ops[n]);
      StepKeepsIntent(Run(INITIAL, ops[..n]), ops[n]);
    }
  }

  // ---- Refusals ----

  function ReplyTo(s: State, op: Op): Reply
    requires !op.Rebind?
  {
    match op
    case Prepare(decision, previewOk, policy, authorization) =>
      PrepareStep(s, decision, previewOk, policy, authorization).reply
    case Apply(preview, decisionId, engineOk) => ApplyStep(s, preview, decisionId, engineOk).reply
    case SinkApply(preview, decisionId, current, ahead, engineOk, after) =>
      SinkApplyStep(s, preview, decisionId, current, ahead, engineOk, after).reply
    case Reject(preview, decisionId, reason, userOverride) =>
      RejectStep(s, preview, decisionId, reason, userOverride).reply
  }

  /**
  A refused operation keeps every pending preview as it was and never reaches the
  engine; an operation that is not refused takes exactly its own preview out.
  */
  lemma RefusalsKeepPending(s: State, op: Op)
    requires op.Apply? || op.SinkApply? || op.Reject?
    ensures
      var t, reply := Step(s, op), ReplyTo(s, op);
      if reply in {PreviewNotFound, DecisionMismatch, StaleAuthorization, EvidencePersistFailed}
      then t.pending == s.pending && t.calls == s.calls && t.log == s.log
      else op.preview in s.pending && t.pending == s.pending - {op.preview}
           && (op.Reject? <==> t.calls == s.calls)
  {
    var t := Step(s, op);
    assert op.Reject? || t.calls == s.calls || |t.calls| == |s.calls| + 1;
  }

  // ---- Replies and records, case by case ----

  /** Pending under this preview id, and put forward under this decision id. */
  ghost predicate Matches(s: State, preview: nat, decisionId: nat) {
    exists p :: preview in s.pending && s.pending[preview] == p && p.decisionId == decisionId
  }

  ghost predicate SameFreshness(a: Freshness, b: Freshness) {
    && a.policyRevision == b.policyRevision
    && a.authorizationRevision == b.authorizationRevision
    && a.reviewerGeneration == b.reviewerGeneration
  }

  /** Only a request that is not denied and whose preview succeeds becomes pending, with what was live at that time. */
  lemma PrepareExactly(s: State, decision: Decision, previewOk: bool, policyRevision: nat, authorization: nat)
    requires s.nextPreview !in s.pending
    ensures
      var Stepped(t, reply) := PrepareStep(s, decision, previewOk, policyRevision, authorization);
      var recorded := PermissionRecorded(s.nextDecision, decision, "", false);
      && t.calls == s.calls && t.persisted == s.persisted && t.nextDecision == s.nextDecision + 1
      && (decision == Denied ==> reply == PermissionDenied && t.pending == s.pending && t.log == s.log + [recorded])
      && (decision != Denied && !previewOk ==>
            && reply == PreviewFailed && t.pending == s.pending
            && t.log == s.log + [recorded, TransactionFinished(None, ValidationFailed, "")])
      && (decision != Denied && previewOk ==>
            && reply == Previewed(s.nextPreview, s.nextDecision)
            && t.log == s.log + [recorded, TransactionPrepared(s.nextTransaction)]
            && t.pending.Keys == s.pending.Keys + {s.nextPreview}
            && (forall p <- s.pending :: t.pending[p] == s.pending[p])
            && Matches(t, s.nextPreview, s.nextDecision)
            && var entry := t.pending[s.nextPreview];
            && entry.transaction == s.nextTransaction < t.nextTransaction && entry.decision == decision
            && entry.captured.policyRevision == policyRevision
            && entry.captured.authorizationRevision == authorization && entry.captured.reviewerGeneration == 0)
  {
  }

  /** Every reply to an operation on a preview. */
  lemma RepliesExactly(s: State, op: Op)
    requires op.Apply? || op.SinkApply? || op.Reject?
    ensures
      var reply, found := ReplyTo(s, op), op.preview in s.pending;
      var matched := Matches(s, op.preview, op.decisionId);
      && (reply == PreviewNotFound <==> !found)
      && (reply == DecisionMismatch <==> found && !matched)
      && (reply == RejectedOk <==> matched && op.Reject?)
      && (op.Apply? ==> (reply == AppliedOk(true) <==> matched && op.engineOk))
      && (op.Apply? ==> (reply == ApplyFailed <==> matched && !op.engineOk))
      && (op.SinkApply? ==>
            var live := matched
              && (op.current.Some? ==> SameFreshness(op.current.value, s.pending[op.preview].captured));
            && (reply == StaleAuthorization <==> matched && !live)
            && (reply == EvidencePersistFailed <==> live && op.ahead != SinkOk)
            && (reply == ApplyFailed <==> live && op.ahead == SinkOk && !op.engineOk)
            && (reply.AppliedOk? <==> live && op.ahead == SinkOk && op.engineOk)
            && (reply.AppliedOk? ==> (reply.evidencePersisted <==> op.after == SinkOk)))
  {
  }

  /** The user's word on a decision that was put to the user, and nothing otherwise. */
  ghost predicate UserSays(records: seq<Evidence>, p: Pending, decision: Decision, reason: string, override: bool) {
    if p.decision == NeedsReview then records == [PermissionRecorded(p.decisionId, decision, reason, override)]
    else records == []
  }

  /** What the log gains when a preview is applied or rejected: the user's word, then the outcome. */
  lemma LogGains(s: State, op: Op) returns (words: seq<Evidence>)
    requires (op.Apply? || op.Reject?) && Matches(s, op.preview, op.decisionId)
    ensures
      var t, p := Step(s, op), s.pending[op.preview];
      var outcome := if op.Apply? && op.engineOk then Completed else Failed;
      && t.persisted == s.persisted
      && t.log == s.log + words
           + [TransactionFinished(Some(p.transaction), outcome, if op.Reject? then op.reason else "")]
      && (op.Apply? ==> UserSays(words, p, Allowed, "user_approved", true))
      && (op.Reject? ==> UserSays(words, p, Denied, op.reason, op.userOverride))
  {
    var p := s.pending[op.preview];
    words := if op.Apply? then Override(p, Allowed, "user_approved", true)
             else Override(p, Denied, op.reason, op.userOverride);
  }

  /** What the sink gains: the user's word and the intent, or a part of them; then, after the engine, the outcome. */
  lemma SinkGains(s: State, op: Op)
    requires op.SinkApply?
    ensures
      var t, reply := Step(s, op), ReplyTo(s, op);
      && t.log == s.log && s.persisted <= t.persisted
      && (reply in {PreviewNotFound, DecisionMismatch, StaleAuthorization} ==> t.persisted == s.persisted)
      && (reply in {EvidencePersistFailed, ApplyFailed} || reply.AppliedOk? ==>
            && op.preview in s.pending
            && exists words ::
                 var p := s.pending[op.preview];
                 var intent := words + [TransactionFinished(Some(p.transaction), ApplyStarted, "apply_started")];
                 var outcome := if op.engineOk then Completed else Failed;
                 && UserSays(words, p, Allowed, "user_approved", true)
                 && (reply == EvidencePersistFailed ==> t.persisted <= s.persisted + intent)
                 && (reply != EvidencePersistFailed ==>
                       && s.persisted + intent <= t.persisted
                       && t.persisted <= s.persisted + intent + [TransactionFinished(Some(p.transaction), outcome, "")]
                       && (op.after == SinkOk ==> |t.persisted| == |s.persisted + intent| + 1)))
  {
    if op.preview in s.pending {
      var words := Override(s.pending[op.preview], Allowed, "user_approved", true);
      assert UserSays(words, s.pending[op.preview], Allowed, "user_approved", true);
    }
  }

  /** A rebind changes the reviewer generation of its preview and nothing else. */
  lemma RebindExactly(s: State, preview: nat, generation: nat)
    ensures
      var t := RebindStep(s, preview, generation);
      && t.pending.Keys == s.pending.Keys && t == s.(pending := t.pending)
      && (forall p <- s.pending :: p != preview ==> t.pending[p] == s.pending[p])
      && (preview in s.pending ==>
            var before, after := s.pending[preview], t.pending[preview];
            && after.transaction == before.transaction && after.decisionId == before.decisionId
            && after.decision == before.decision && after.captured.reviewerGeneration == generation
            && after.captured.policyRevision == before.captured.policyRevision
            && after.captured.authorizationRevision == before.captured.authorizationRevision)
  {
  }

  // ---- Freshness ----

  /** The live authorization revision at each operation; a freshness check reads it. */
  ghost predicate ReadsLive(ops: seq<Op>, live: seq<nat>) {
    && |live| == |ops|
    && (forall i, j :: 0 <= i <= j < |live| ==> live[i] <= live[j])
    && (forall i :: 0 <= i < |ops| && ops[i].SinkApply? && ops[i].current.Some? ==>
          ops[i].current.value.authorizationRevision == live[i])
  }

  ghost predicate NoCheckedCallSince(s: State, t: State, preview: nat) {
    forall c <- t.calls :: c.preview == preview && c.checked ==> c in s.calls
  }

  /** While a preview stays pending, its captured authorization revision does not change. */
  lemma CapturedAuthorizationStays(s: State, op: Op, preview: nat)
    requires IdsIssuedOnce(s) && preview < s.nextPreview && preview in Step(s, op).pending
    ensures preview in s.pending
    ensures Step(s, op).pending[preview].captured.authorizationRevision ==
      s.pending[preview].captured.authorizationRevision
  {
  }

  lemma PendingIsIssued(s: State, preview: nat)
    requires IdsIssuedOnce(s) && preview in s.pending
    ensures preview < s.nextPreview
  {
  }

  lemma {:induction false} StaleStaysStale(s: State, ops: seq<Op>, live: seq<nat>, preview: nat)
    requires IdsIssuedOnce(s) && CalledOnce(s) && preview in s.pending && ReadsLive(ops, live)
    requires ops != [] ==> s.pending[preview].captured.authorizationRevision < live[0]
    ensures
      var t := Run(s, ops);
      && IdsIssuedOnce(t) && CalledOnce(t) && preview < t.nextPreview && NoCheckedCallSince(s, t, preview)
      && (preview in t.pending ==>
            t.pending[preview].captured.authorizationRevision == s.pending[preview].captured.authorizationRevision)
    decreases |ops|
  {
    hide Step, IdsIssuedOnce, CalledOnce;
    if ops == [] {
      PendingIsIssued(s, preview);
    } else {
      var n := |ops| - 1;
      var before, t := Run(s, ops[..n]), Run(s, ops);
      assert ReadsLive(ops[..n], live[..n]);
      StaleStaysStale(s, ops[..n], live[..n], preview);
      StepKeepsIds(before, ops[n]);
      StepEffect(before, ops[n]);
      if preview in t.pending {
        CapturedAuthorizationStays(before, ops[n], preview);
      }
      assert live[0] <= live[n];
    }
  }

  /**
  Once the live authorization revision has passed the value a preview captured, no
  later freshness-checked apply of that preview reaches the engine, whatever
  rebinds and other operations come in between.
  */
  lemma NoCheckedApplyOnceStale(before: seq<Op>, later: seq<Op>, live: seq<nat>, preview: nat)
    requires preview in Run(INITIAL, before).pending && ReadsLive(later, live)
    requires later != [] ==> Run(INITIAL, before).pending[preview].captured.authorizationRevision < live[0]
    ensures NoCheckedCallSince(Run(INITIAL, before), Run(Run(INITIAL, before), later), preview)
  {
    EngineCalledAtMostOnce(before);
    StaleStaysStale(Run(INITIAL, before), later, live, preview);
  }
}
