/**
Masking and compaction together, as runner.rs drives them: masks are selected,
the cut is chosen on the same log, and the masks are appended just before the
checkpoint, after whatever records the summary attempts left.
*/
module MaskedCompaction {
  import opened Results
  import opened Widths
  import opened SessionLog
  import opened Compaction
  import opened Masking
  import opened Context

  /** The masks a compaction stages; `enabled` is the configuration and the savings floor. */
  function StagedMasks(log: seq<Event>, current: Id, protect: nat, enabled: bool): (staged: seq<Event>)
    ensures forall e <- staged :: e.Masked?
  {
    if enabled then MaskEvents(CandidatesFrom(PassFor(log, current, protect), 0), current) else []
  }

  /** `tokens_after_estimate`: the summary and the kept tail, under the log's masks extended by the staged ones. */
  function RecordedEstimate(log: seq<Event>, staged: seq<Event>, summary: string, kept: nat): nat
    requires kept <= |log|
  {
    Saturate(TextTokens(summary) + TokensFrom(log, MasksOf(log) + MasksOf(staged), kept))
  }

  // ---- One mask map ----

  ghost predicate AllOther(events: seq<Event>) {
    forall e <- events :: e.Other?
  }

  /** Staged masks name results that are not masked yet. */
  lemma StagedKeysAreNew(log: seq<Event>, current: Id, protect: nat, key: ResultKey)
    requires FirstMask(CandidatesFrom(PassFor(log, current, protect), 0), key).Some?
    ensures key !in MasksOf(log)
  {
    hide MasksOf, FoldStart, Protected, NetTokens;
    var p := PassFor(log, current, protect);
    var i := FirstMaskInLog(log, p, key);
    CandidateHasMask(log, p, i);
  }

  /** Extending the log's mask map by the staged masks gives the map of the log they are appended to. */
  lemma ExtendedMapIsFinal(log: seq<Event>, records: seq<Event>, current: Id, protect: nat, enabled: bool)
    requires AllOther(records)
    ensures
      var staged := StagedMasks(log, current, protect, enabled);
      MasksOf(log + records + staged) == MasksOf(log) + MasksOf(staged)
  {
    hide MasksOf, PassFor, CandidatesFrom, FirstMask;
    MasksOfAppend(log, records);
    if enabled {
      var candidates := CandidatesFrom(PassFor(log, current, protect), 0);
      var staged := MaskEvents(candidates, current);
      var merged, final := MasksOf(log) + MasksOf(staged), MasksOf(log + records + staged);
      assert [] + staged == staged;
      forall key: ResultKey
        ensures (key in merged <==> key in final) && (key in final ==> merged[key] == final[key])
      {
        MasksAfter(log + records, candidates, current, key);
        MasksAfter([], candidates, current, key);
        assert key !in MasksOf([]) by { NoMasksWithoutEvents([]); }
        if FirstMask(candidates, key).Some? {
          StagedKeysAreNew(log, current, protect, key);
        }
      }
    } else {
      NoMasksWithoutEvents([]);
      assert log + records + [] == log + records;
    }
  }

  // ---- The estimate after both ----

  lemma {:induction false} NetSumIsOwn(log: seq<Event>, p: Pass, i: nat)
    requires i <= |log| && p.events == log[FoldStart(log)..] && KeysUnshared(log, p)
    ensures SavedFrom(log, p.masks, CandidatesFrom(p, 0), i) == NetSum(CandidatesAfter(log, p, i)) >= 0
  {
    SavedIsNetAndSurplus(log, p, i);
    NoSurplusFrom(log, p, i);
  }

  /** Tokens of the kept tail under the final masks, with unshared keys: no more than before masking. */
  lemma StagedMasksOnlySave(log: seq<Event>, current: Id, protect: nat, enabled: bool, i: nat)
    requires i <= |log| && KeysUnshared(log, PassFor(log, current, protect))
    ensures
      var staged := StagedMasks(log, current, protect, enabled);
      TokensFrom(log, MasksOf(log) + MasksOf(staged), i) <= TokensFrom(log, MasksOf(log), i)
  {
    var p := PassFor(log, current, protect);
    var staged := StagedMasks(log, current, protect, enabled);
    ExtendedMapIsFinal(log, [], current, protect, enabled);
    assert log + [] + staged == log + staged;
    hide MasksOf, FoldStart, SavedFrom, NetSum, KeysUnshared, CandidatesFrom, TokensFrom;
    if enabled {
      TokensDrop(log, CandidatesFrom(p, 0), current, i);
      NetSumIsOwn(log, p, i);
    } else {
      assert log + staged == log;
    }
  }

  /**
  After a compaction that also masks, the recorded estimate bounds the real one.
  When no candidate's key is borne by another result and the kept tail does not
  start at the last entry, both are within the summary plus the budget.
  */
  lemma RecordedEstimateBounds(log: seq<Event>, keep: nat, current: Id, protect: nat, enabled: bool,
                               records: seq<Event>, c: Event)
    requires DistinctEntries(log) && AllOther(records) && CutSpec(log, keep).Some?
    requires c.Checkpoint? && c.firstKept == CutSpec(log, keep).value.firstKept
    ensures
      var staged, kept := StagedMasks(log, current, protect, enabled), CutSpec(log, keep).value.keptStart;
      && kept < |log|
      && var recorded := RecordedEstimate(log, staged, c.summary, kept);
      && ContextTokens(log + records + staged + [c]) <= recorded
      && (KeysUnshared(log, PassFor(log, current, protect)) && (exists j :: kept < j < |log| && log[j].Entry?) ==>
            recorded <= Saturate(TextTokens(c.summary) + keep))
  {
    var staged := StagedMasks(log, current, protect, enabled);
    hide CutSpec, MasksOf, ContextTokens, StagedMasks, KeysUnshared, PassFor, TokensFrom;
    assert AllQuiet(records + staged);
    assert log + records + staged == log + (records + staged);
    EstimateWithQuiet(log, keep, records + staged, c);
    ExtendedMapIsFinal(log, records, current, protect, enabled);
    if KeysUnshared(log, PassFor(log, current, protect)) {
      CutIsBest(log, keep);
      CutNeedsSmallBudget(log, keep);
      StagedMasksOnlySave(log, current, protect, enabled, CutSpec(log, keep).value.keptStart);
    }
  }

  ghost predicate AllQuiet(events: seq<Event>) {
    forall e <- events :: Quiet(e)
  }

  /** Events that cost nothing, between the cut and its checkpoint, count only by their masks. */
  lemma EstimateWithQuiet(log: seq<Event>, keep: nat, between: seq<Event>, c: Event)
    requires DistinctEntries(log) && AllQuiet(between) && CutSpec(log, keep).Some?
    requires c.Checkpoint? && c.firstKept == CutSpec(log, keep).value.firstKept
    ensures
      var kept := CutSpec(log, keep).value.keptStart;
      && kept < |log|
      && ContextTokens(log + between + [c]) <=
           Saturate(TextTokens(c.summary) + TokensFrom(log, MasksOf(log + between), kept))
  {
    hide CutSpec, MasksOf, ContextTokens, TokensFrom, TextTokens;
    var all := log + between;
    assert DistinctEntries(all) by {
      assert forall i :: |log| <= i < |all| ==> all[i] in between;
      assert forall i :: 0 <= i < |log| ==> all[i] == log[i];
    }
    EstimateAfterCompaction(log, keep, between, c);
    TokensWithQuiet(log, between, MasksOf(all), CutSpec(log, keep).value.keptStart);
  }

  // ---- Masks spare the kept tail ----

  /** What a pass has protected is at most what the events cost. */
  lemma {:induction false} ProtectedAtMostTokens(log: seq<Event>, current: Id, protect: nat, i: nat)
    requires FoldStart(log) <= i <= |log|
    ensures
      var p := PassFor(log, current, protect);
      Protected(p, i - FoldStart(log)) <= Saturate(TokensFrom(log, MasksOf(log), i))
    decreases |log| - i
  {
    hide FoldStart, MasksOf, MaskMarker;
    if i < |log| {
      ProtectedAtMostTokens(log, current, protect, i + 1);
      assert PassFor(log, current, protect).events[i - FoldStart(log)] == log[i];
    }
  }

  /**
  The runner protects as many tokens as it keeps.  Then no result of a kept tail
  that fits the budget is a candidate: staged masks name folded results alone.
  */
  lemma MasksSpareTheTail(log: seq<Event>, keep: nat, current: Id, protect: nat, i: nat)
    requires keep <= protect && CutSpec(log, keep).Some? && CutSpec(log, keep).value.keptStart <= i < |log|
    requires exists j :: CutSpec(log, keep).value.keptStart < j < |log| && log[j].Entry?
    ensures !CandidateInLog(log, PassFor(log, current, protect), i)
  {
    hide CutSpec, MasksOf, FoldStart, MaskMarker, Protected;
    CutIsBest(log, keep);
    CutNeedsSmallBudget(log, keep);
    var p, s, kept := PassFor(log, current, protect), FoldStart(log), CutSpec(log, keep).value.keptStart;
    if CandidateInLog(log, p, i) {
      assert p.events[i - s] == log[i];
      ProtectedAtMostTokens(log, current, protect, i + 1);
      TokensShrink(log, MasksOf(log), kept, i);
    }
  }
}
