/**
The provider-context estimate (`estimate_current_context_tokens` and
`context_turns` in compaction.rs).
*/
module Context {
  import opened Results
  import opened Widths
  import opened SessionLog
  import opened Compaction

  predicate TurnScoped(e: Event) {
    e.Entry? || e.ToolRequest? || e.ToolFinished? || e.Masked?
  }

  ghost function FinishedTurns(log: seq<Event>): set<Id> {
    set i | 0 <= i < |log| && log[i].TurnFinished? :: log[i].turn
  }

  ghost function CompletedTurns(log: seq<Event>): set<Id> {
    set i | 0 <= i < |log| && log[i].TurnFinished? && log[i].outcome.Completed? :: log[i].turn
  }

  /** The turn of the newest turn-scoped event among the first `n`. */
  function NewestTurn(log: seq<Event>, n: nat): (r: Option<Id>)
    requires n <= |log|
  {
    if n == 0 then None else if TurnScoped(log[n - 1]) then Some(log[n - 1].turn) else NewestTurn(log, n - 1)
  }

  /** Completed turns, and the newest turn while it is in flight. */
  ghost function ContextTurns(log: seq<Event>): set<Id> {
    var newest := NewestTurn(log, |log|);
    CompletedTurns(log)
    + (if newest.Some? && newest.value !in FinishedTurns(log) then {newest.value} else {})
  }

  method ComputeContextTurns(log: seq<Event>) returns (turns: set<Id>)
    ensures turns == ContextTurns(log)
  {
    var finished: set<Id> := {};
    turns := {};
    for i := 0 to |log|
      invariant finished == FinishedTurns(log[..i]) && turns == CompletedTurns(log[..i])
    {
      var before, after := log[..i], log[..i + 1];
      assert forall j :: 0 <= j < i ==> after[j] == before[j];
      assert after[i] == log[i];
      if log[i].TurnFinished? {
        finished := finished + {log[i].turn};
        if log[i].outcome.Completed? {
          turns := turns + {log[i].turn};
        }
      }
    }
    assert log[..|log|] == log;
    var newest := NewestTurn(log, |log|);
    if newest.Some? && newest.value !in finished {
      turns := turns + {newest.value};
    }
  }

  predicate InContext(e: Event, turns: set<Id>) {
    TurnScoped(e) ==> e.turn in turns
  }

  /** Tokens of the events from `i` on that a request would contain, checkpoints left out if asked. */
  function ContextTokensFrom(log: seq<Event>, masks: MaskMap, turns: set<Id>, skipCheckpoints: bool, i: nat): nat
    requires i <= |log|
    decreases |log| - i
  {
    if i == |log| then 0
    else
      (if InContext(log[i], turns) && !(skipCheckpoints && log[i].Checkpoint?) then MaskedTokens(log[i], masks) else 0)
      + ContextTokensFrom(log, masks, turns, skipCheckpoints, i + 1)
  }

  ghost function ContextTokens(log: seq<Event>): nat {
    var turns, masks := ContextTurns(log), MasksOf(log);
    match NewestCheckpoint(log)
    case None => ContextTokensFrom(log, masks, turns, false, 0)
    case Some(view) =>
      Saturate(TextTokens(view.summary) + ContextTokensFrom(log, masks, turns, true, view.keptStart))
  }

  // ---- Exactly what is counted ----

  /** An entry, a tool call, a tool result or a mask of the turn. */
  ghost predicate BelongsTo(e: Event, turn: Id) {
    (e.Entry? || e.ToolRequest? || e.ToolFinished? || e.Masked?) && e.turn == turn
  }

  ghost predicate Ended(log: seq<Event>, turn: Id) {
    exists i :: 0 <= i < |log| && log[i].TurnFinished? && log[i].turn == turn
  }

  ghost predicate EndedWell(log: seq<Event>, turn: Id) {
    exists i :: 0 <= i < |log| && log[i] == TurnFinished(turn, Completed)
  }

  /** The last event of any turn belongs to this one. */
  ghost predicate IsNewest(log: seq<Event>, turn: Id) {
    exists i :: 0 <= i < |log| && BelongsTo(log[i], turn)
      && forall j, other :: i < j < |log| ==> !BelongsTo(log[j], other)
  }

  lemma {:induction false} NewestTurnExactly(log: seq<Event>, n: nat, turn: Id)
    requires n <= |log|
    ensures NewestTurn(log, n) == Some(turn) <==>
      exists i :: 0 <= i < n && BelongsTo(log[i], turn) && forall j :: i < j < n ==> !TurnScoped(log[j])
  {
    if n > 0 {
      NewestTurnExactly(log, n - 1, turn);
      if TurnScoped(log[n - 1]) && log[n - 1].turn == turn {
        assert BelongsTo(log[n - 1], turn);
      }
    }
  }

  /** A turn is in context when it completed, or when it is the newest and has not ended. */
  lemma ContextTurnsExactly(log: seq<Event>, turn: Id)
    ensures turn in ContextTurns(log) <==> EndedWell(log, turn) || (IsNewest(log, turn) && !Ended(log, turn))
  {
    NewestTurnExactly(log, |log|, turn);
    forall j | 0 <= j < |log| ensures TurnScoped(log[j]) <==> exists other :: BelongsTo(log[j], other) {
      ScopedBelongs(log[j]);
    }
    if i :| 0 <= i < |log| && log[i].TurnFinished? && log[i].outcome.Completed? && log[i].turn == turn {
      assert log[i] == TurnFinished(turn, Completed);
    }
  }

  lemma ScopedBelongs(e: Event)
    ensures TurnScoped(e) <==> exists turn :: BelongsTo(e, turn)
  {
    if TurnScoped(e) {
      assert BelongsTo(e, e.turn);
    }
  }

  /** A request contains an event unless it belongs to a turn out of context. */
  ghost predicate InRequest(log: seq<Event>, e: Event) {
    forall turn :: BelongsTo(e, turn) ==> EndedWell(log, turn) || (IsNewest(log, turn) && !Ended(log, turn))
  }

  /** Tokens of what a request contains from index `i` on, older summaries left out. */
  ghost function RequestTokens(log: seq<Event>, i: nat, summarised: bool): nat
    requires i <= |log|
    decreases |log| - i
  {
    if i == |log| then 0
    else
      (if InRequest(log, log[i]) && !(summarised && log[i].Checkpoint?) then MaskedTokens(log[i], MasksOf(log)) else 0)
      + RequestTokens(log, i + 1, summarised)
  }

  lemma {:induction false} RequestTokensAre(log: seq<Event>, i: nat, summarised: bool)
    requires i <= |log|
    ensures ContextTokensFrom(log, MasksOf(log), ContextTurns(log), summarised, i) == RequestTokens(log, i, summarised)
    decreases |log| - i
  {
    hide MasksOf, MaskedTokens, ContextTurns, EndedWell, IsNewest, Ended;
    if i < |log| {
      RequestTokensAre(log, i + 1, summarised);
      if TurnScoped(log[i]) {
        ContextTurnsExactly(log, log[i].turn);
        assert BelongsTo(log[i], log[i].turn);
      }
    }
  }

  /** The estimate is the newest summary and everything a request contains from the kept boundary on. */
  lemma ContextExactly(log: seq<Event>)
    ensures ContextTokens(log) ==
      match NewestCheckpoint(log)
      case None => RequestTokens(log, 0, false)
      case Some(view) => Saturate(TextTokens(view.summary) + RequestTokens(log, view.keptStart, true))
  {
    hide MasksOf, ContextTurns, NewestCheckpoint, RequestTokens;
    match NewestCheckpoint(log)
    case None => RequestTokensAre(log, 0, false);
    case Some(view) => RequestTokensAre(log, view.keptStart, true);
  }

  // ---- The estimate after a compaction ----

  lemma {:induction false} ContextAtMostAll(log: seq<Event>, masks: MaskMap, turns: set<Id>, i: nat, c: Event)
    requires i <= |log| && c.Checkpoint?
    ensures ContextTokensFrom(log + [c], masks, turns, true, i) <= TokensFrom(log, masks, i)
    decreases |log| - i
  {
    var all := log + [c];
    if i < |log| {
      assert all[i] == log[i];
      ContextAtMostAll(log, masks, turns, i + 1, c);
    } else {
      assert all[i] == c;
      assert ContextTokensFrom(all, masks, turns, true, i + 1) == 0;
    }
  }

  /**
  After a compaction's checkpoint is appended, with whatever came in between, the
  estimate is at most its summary plus the kept tail; with nothing in between,
  at most the summary plus the budget unless the tail starts at the last entry.
  */
  lemma EstimateAfterCompaction(log: seq<Event>, keep: nat, between: seq<Event>, c: Event)
    requires DistinctEntries(log + between) && CutSpec(log, keep).Some?
    requires c.Checkpoint? && c.firstKept == CutSpec(log, keep).value.firstKept
    ensures
      var all, kept := log + between, CutSpec(log, keep).value.keptStart;
      && kept < |log|
      && ContextTokens(all + [c]) <= Saturate(TextTokens(c.summary) + TokensFrom(all, MasksOf(all), kept))
      && (between == [] && (exists j :: kept < j < |log| && log[j].Entry?) ==>
            ContextTokens(all + [c]) <= Saturate(TextTokens(c.summary) + keep))
  {
    hide CutSpec;
    CutIsBest(log, keep);
    CutNeedsSmallBudget(log, keep);
    var all, kept := log + between, CutSpec(log, keep).value.keptStart;
    assert all[kept] == log[kept];
    assert between == [] ==> all == log;
    NewCheckpointView(all, c, kept);
    MasksOfAppend(all, [c]);
    ContextAtMostAll(all, MasksOf(all), ContextTurns(all + [c]), kept, c);
  }

  lemma {:induction false} WholeTailCounts(log: seq<Event>, c: Event, i: nat)
    requires i <= |log| && c.Checkpoint?
    requires forall j :: i <= j < |log| ==> !log[j].Checkpoint? && InRequest(log + [c], log[j])
    ensures RequestTokens(log + [c], i, true) == TokensFrom(log, MasksOf(log + [c]), i)
    decreases |log| - i
  {
    hide MasksOf, MaskedTokens, InRequest;
    var all := log + [c];
    if i < |log| {
      WholeTailCounts(log, c, i + 1);
      assert all[i] == log[i];
    } else {
      assert all[i] == c && RequestTokens(all, i + 1, true) == 0;
    }
  }

  /** After a compaction whose kept tail a request contains whole, the estimate is the summary and that tail exactly. */
  lemma EstimateAfterCompactionExactly(log: seq<Event>, c: Event, kept: nat)
    requires DistinctEntries(log) && c.Checkpoint?
    requires kept < |log| && log[kept].Entry? && log[kept].entryId == c.firstKept
    requires forall j :: kept <= j < |log| ==> !log[j].Checkpoint? && InRequest(log + [c], log[j])
    ensures ContextTokens(log + [c]) == Saturate(TextTokens(c.summary) + TokensFrom(log, MasksOf(log), kept))
  {
    hide MasksOf, InRequest, NewestCheckpoint, ContextTokens, RequestTokens, TokensFrom;
    NewCheckpointView(log, c, kept);
    ContextExactly(log + [c]);
    MasksOfAppend(log, [c]);
    WholeTailCounts(log, c, kept);
  }

  // ---- Failed turns ----

  /** The events of one whole turn that did not complete. */
  ghost predicate UncompletedTurn(events: seq<Event>, turn: Id) {
    && events != []
    && (forall i :: 0 <= i < |events| - 1 ==>
          (events[i].Entry? || events[i].ToolRequest? || events[i].ToolFinished? || events[i].Other?)
          && (TurnScoped(events[i]) ==> events[i].turn == turn))
    && var last := events[|events| - 1];
    last.TurnFinished? && last.turn == turn && !last.outcome.Completed?
  }

  /** Neither the turn nor its entries are known to the log. */
  ghost predicate FreshTurn(log: seq<Event>, events: seq<Event>, turn: Id) {
    && (forall i :: 0 <= i < |log| && (TurnScoped(log[i]) || log[i].TurnFinished?) ==> log[i].turn != turn)
    && (forall i, j :: 0 <= i < |log| && 0 <= j < |events| && log[i].Checkpoint? && events[j].Entry? ==>
          log[i].firstKept != events[j].entryId)
  }

  ghost predicate NewestTurnFinished(log: seq<Event>) {
    var newest := NewestTurn(log, |log|);
    newest.Some? ==> newest.value in FinishedTurns(log)
  }

  lemma {:induction false} NewestTurnOfAppend(log: seq<Event>, events: seq<Event>, turn: Id, n: nat)
    requires UncompletedTurn(events, turn) && n <= |events|
    ensures NewestTurn(log + events, |log| + n) in {NewestTurn(log, |log|), Some(turn)}
  {
    var all := log + events;
    if n == 0 {
      NewestTurnOfPrefix(log, events, |log|);
    } else {
      assert all[|log| + n - 1] == events[n - 1];
      NewestTurnOfAppend(log, events, turn, n - 1);
    }
  }

  lemma {:induction false} NewestTurnOfPrefix(log: seq<Event>, more: seq<Event>, n: nat)
    requires n <= |log|
    ensures NewestTurn(log + more, n) == NewestTurn(log, n)
  {
    if n > 0 {
      assert (log + more)[n - 1] == log[n - 1];
      NewestTurnOfPrefix(log, more, n - 1);
    }
  }

  lemma ContextTurnsUnchanged(log: seq<Event>, events: seq<Event>, turn: Id)
    requires UncompletedTurn(events, turn) && FreshTurn(log, events, turn) && NewestTurnFinished(log)
    ensures ContextTurns(log + events) == ContextTurns(log) && turn !in ContextTurns(log)
  {
    var all, n := log + events, |events| - 1;
    NewestTurnOfAppend(log, events, turn, |events|);
    assert forall i :: 0 <= i < |log| ==> all[i] == log[i];
    assert forall i :: |log| <= i < |all| ==> all[i] == events[i - |log|];
    assert all[|log| + n].TurnFinished? && all[|log| + n].turn == turn;
    assert FinishedTurns(log) <= FinishedTurns(all);
    assert CompletedTurns(all) == CompletedTurns(log);
  }

  lemma {:induction false} SameContextTokens(log: seq<Event>, events: seq<Event>, masks: MaskMap, turns: set<Id>,
                                             skip: bool, turn: Id, i: nat)
    requires i <= |log + events| && UncompletedTurn(events, turn) && turn !in turns
    ensures ContextTokensFrom(log + events, masks, turns, skip, i) ==
      if i <= |log| then ContextTokensFrom(log, masks, turns, skip, i) else 0
    decreases |log + events| - i
  {
    var all := log + events;
    if i < |all| {
      SameContextTokens(log, events, masks, turns, skip, turn, i + 1);
      if i < |log| {
        assert all[i] == log[i];
      } else {
        var e := events[i - |log|];
        assert all[i] == e;
        assert !InContext(e, turns) || MaskedTokens(e, masks) == 0;
      }
    }
  }

  /** A whole failed or cancelled turn leaves the estimate as it was, with or without a checkpoint. */
  lemma FailedTurnsDoNotCount(log: seq<Event>, events: seq<Event>, turn: Id)
    requires UncompletedTurn(events, turn) && FreshTurn(log, events, turn) && NewestTurnFinished(log)
    ensures ContextTokens(log + events) == ContextTokens(log)
  {
    hide ContextTurns, NewestCheckpoint;
    ContextTurnsUnchanged(log, events, turn);
    MasksOfAppend(log, events);
    assert KeepsBoundary(log, events);
    CheckpointSurvivesAppend(log, events);
    var view := NewestCheckpoint(log);
    SameContextTokens(log, events, MasksOf(log), ContextTurns(log), view.Some?, turn,
                      if view.Some? then view.value.keptStart else 0);
  }
}
