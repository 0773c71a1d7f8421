/** Choosing what a compaction folds away (`select_compaction_cut` in compaction.rs). */
module Compaction {
  import opened Results
  import opened Widths
  import opened SessionLog

  // ---- The cut ----

  datatype Cut = Cut(firstKept: Id, keptStart: nat, foldStart: nat)

  /** The budget walk, at index `i` with everything from `i` on known to fit. */
  function BudgetStart(events: seq<Event>, masks: MaskMap, keep: nat, i: nat): (b: nat)
    requires i <= |events|
    ensures b <= i
    ensures b < i ==> Saturate(TokensFrom(events, masks, b)) <= keep
    ensures b > 0 ==> Saturate(TokensFrom(events, masks, b - 1)) > keep
  {
    hide TokensFrom, Saturate;
    if i == 0 then 0
    else if Saturate(TokensFrom(events, masks, i - 1)) > keep then i
    else BudgetStart(events, masks, keep, i - 1)
  }

  predicate IsUserEntry(e: Event) {
    e.Entry? && e.role.User?
  }

  function FirstUserEntry(events: seq<Event>, i: nat): (r: Option<nat>)
    requires i <= |events|
    ensures r.Some? ==> i <= r.value < |events| && IsUserEntry(events[r.value])
    ensures r.Some? ==> forall j :: i <= j < r.value ==> !IsUserEntry(events[j])
    ensures r.None? ==> forall j :: i <= j < |events| ==> !IsUserEntry(events[j])
    decreases |events| - i
  {
    if i == |events| then None else if IsUserEntry(events[i]) then Some(i) else FirstUserEntry(events, i + 1)
  }

  function FirstEntry(events: seq<Event>, i: nat): (r: Option<nat>)
    requires i <= |events|
    ensures r.Some? ==> i <= r.value < |events| && events[r.value].Entry?
    ensures r.Some? ==> forall j :: i <= j < r.value ==> !events[j].Entry?
    ensures r.None? ==> forall j :: i <= j < |events| ==> !events[j].Entry?
    decreases |events| - i
  {
    if i == |events| then None else if events[i].Entry? then Some(i) else FirstEntry(events, i + 1)
  }

  function LastEntry(events: seq<Event>, n: nat): (r: Option<nat>)
    requires n <= |events|
    ensures r.Some? ==> r.value < n && events[r.value].Entry? && forall j :: r.value < j < n ==> !events[j].Entry?
    ensures r.None? ==> forall j :: 0 <= j < n ==> !events[j].Entry?
  {
    if n == 0 then None else if events[n - 1].Entry? then Some(n - 1) else LastEntry(events, n - 1)
  }

  function FoldStart(log: seq<Event>): (r: nat)
    ensures r <= |log|
  {
    match NewestCheckpoint(log) case None => 0 case Some(view) => view.keptStart
  }

  /** The cut inside `events`, given where the budget walk stopped. */
  function CutAt(events: seq<Event>, budget: nat): (r: Option<nat>)
    requires budget <= |events|
    ensures r.Some? ==> 0 < r.value < |events|
  {
    if budget == 0 then None
    else
      var start := if FirstEntry(events, budget).Some? then Some(budget) else LastEntry(events, budget);
      match start
      case None => None
      case Some(from) =>
        var user := FirstUserEntry(events, from);
        var cut := if user.Some? then user else FirstEntry(events, from);
        if cut.None? || cut.value == 0 then None else cut
  }

  function CutSpec(log: seq<Event>, keep: nat): (r: Option<Cut>) {
    var start := FoldStart(log);
    var events := log[start..];
    match CutAt(events, BudgetStart(events, MasksOf(log), keep, |events|))
    case None => None
    case Some(cut) => if events[cut].Entry? then Some(Cut(events[cut].entryId, start + cut, start)) else None
  }

  method BudgetWalk(events: seq<Event>, masks: MaskMap, keep: nat) returns (budget: nat)
    ensures budget == BudgetStart(events, masks, keep, |events|)
  {
    budget := |events|;
    var accumulated, i := 0, |events|;
    while i > 0
      invariant 0 <= i <= |events| && budget == i
      invariant accumulated == Saturate(TokensFrom(events, masks, i))
      invariant BudgetStart(events, masks, keep, |events|) == BudgetStart(events, masks, keep, i)
    {
      i := i - 1;
      accumulated := Saturate(accumulated + MaskedTokens(events[i], masks));
      if accumulated > keep {
        break;
      }
      budget := i;
    }
  }

  method SelectCompactionCut(log: seq<Event>, keep: nat) returns (r: Option<Cut>)
    ensures r == CutSpec(log, keep)
  {
    hide NewestCheckpoint, FoldStart, BudgetStart, MasksOf;
    var foldStart := FoldStart(log);
    var events := log[foldStart..];
    var masks := MaskedResultMap(log);
    var budget := BudgetWalk(events, masks, keep);
    var cut := CutAt(events, budget);
    if cut.None? {
      return None;
    }
    CutAtIsBest(events, budget);
    return Some(Cut(events[cut.value].entryId, foldStart + cut.value, foldStart));
  }

  // ---- What a cut promises ----

  ghost predicate Fits(log: seq<Event>, i: nat, keep: nat)
    requires i <= |log|
  {
    Saturate(TokensFrom(log, MasksOf(log), i)) <= keep
  }

  /** Being within the budget is being at or after the point where the walk stopped. */
  lemma FitsFromBudget(log: seq<Event>, start: nat, keep: nat, i: nat)
    requires start <= i <= |log|
    ensures
      var events := log[start..];
      Fits(log, i, keep) <==> BudgetStart(events, MasksOf(log), keep, |events|) <= i - start
  {
    hide MasksOf;
    TokensOfSlice(log, MasksOf(log), start, i - start);
    BudgetIsThreshold(log[start..], MasksOf(log), keep, i - start);
  }

  lemma BudgetIsThreshold(events: seq<Event>, masks: MaskMap, keep: nat, i: nat)
    requires i <= |events|
    ensures Saturate(TokensFrom(events, masks, i)) <= keep <==> BudgetStart(events, masks, keep, |events|) <= i
  {
    var b := BudgetStart(events, masks, keep, |events|);
    assert TokensFrom(events, masks, |events|) == 0;
    hide TokensFrom, BudgetStart;
    if i < b {
      TokensShrink(events, masks, i, b - 1);
    } else {
      TokensShrink(events, masks, b, i);
    }
  }

  lemma CutAtIsBest(events: seq<Event>, b: nat)
    requires b <= |events|
    ensures CutAt(events, b).Some? <==> b > 0 && exists i :: 0 < i < |events| && events[i].Entry?
    ensures CutAt(events, b).Some? ==>
      var c := CutAt(events, b).value;
      && events[c].Entry?
      && (b <= c || forall j :: c < j < |events| ==> !events[j].Entry?)
      && (forall j :: 0 <= j < c && IsUserEntry(events[j]) ==> j < b)
      && (IsUserEntry(events[c]) || forall j :: c <= j < |events| ==> !IsUserEntry(events[j]))
      && (IsUserEntry(events[c]) || forall j :: 0 <= j < c && events[j].Entry? ==> j < b)
  {
  }

  /**
  A cut exists exactly when what is not yet folded overflows the budget and has
  an entry after its first event.  The kept tail then fits unless it starts at
  the last entry; every folded user entry would have overflowed; and the tail
  starts at a user entry whenever it has one, and else at the first entry that fits.
  */
  lemma CutIsBest(log: seq<Event>, keep: nat)
    ensures CutSpec(log, keep).Some? <==>
      !Fits(log, FoldStart(log), keep) && exists i :: FoldStart(log) < i < |log| && log[i].Entry?
    ensures CutSpec(log, keep).Some? ==>
      var c := CutSpec(log, keep).value;
      && c.foldStart == FoldStart(log) < c.keptStart < |log|
      && log[c.keptStart].Entry? && log[c.keptStart].entryId == c.firstKept
      && (Fits(log, c.keptStart, keep) || forall j :: c.keptStart < j < |log| ==> !log[j].Entry?)
      && (forall j :: c.foldStart <= j < c.keptStart && IsUserEntry(log[j]) ==> !Fits(log, j, keep))
      && (IsUserEntry(log[c.keptStart]) || forall j :: c.keptStart <= j < |log| ==> !IsUserEntry(log[j]))
      && (IsUserEntry(log[c.keptStart])
          || forall j :: c.foldStart <= j < c.keptStart && log[j].Entry? ==> !Fits(log, j, keep))
  {
    hide NewestCheckpoint, FoldStart, Fits, CutAt, BudgetStart, MasksOf;
    var start := FoldStart(log);
    var events := log[start..];
    var b := BudgetStart(events, MasksOf(log), keep, |events|);
    CutAtIsBest(events, b);
    EntriesOfSlice(log, start);
    forall j | start <= j <= |log| ensures Fits(log, j, keep) <==> b <= j - start {
      FitsFromBudget(log, start, keep, j);
    }
    if CutAt(events, b).Some? {
      CutInLog(log, start, b, CutAt(events, b).value, keep);
    }
  }

  /** Saturated sums never exceed the largest budgets, so nothing is cut under those. */
  lemma CutNeedsSmallBudget(log: seq<Event>, keep: nat)
    requires CutSpec(log, keep).Some?
    ensures keep < U64_MAX
  {
    hide CutSpec;
    CutIsBest(log, keep);
  }

  /** What is best within the unfolded events is best in the log. */
  lemma CutInLog(log: seq<Event>, start: nat, b: nat, c: nat, keep: nat)
    requires start + c < |log| && b <= |log| - start
    requires
      var events := log[start..];
      && (b <= c || forall j :: c < j < |events| ==> !events[j].Entry?)
      && (forall j :: 0 <= j < c && IsUserEntry(events[j]) ==> j < b)
      && (IsUserEntry(events[c]) || forall j :: c <= j < |events| ==> !IsUserEntry(events[j]))
      && (IsUserEntry(events[c]) || forall j :: 0 <= j < c && events[j].Entry? ==> j < b)
    requires forall j :: start <= j <= |log| ==> (Fits(log, j, keep) <==> b <= j - start)
    ensures Fits(log, start + c, keep) || forall j :: start + c < j < |log| ==> !log[j].Entry?
    ensures forall j :: start <= j < start + c && IsUserEntry(log[j]) ==> !Fits(log, j, keep)
    ensures IsUserEntry(log[start + c]) || forall j :: start + c <= j < |log| ==> !IsUserEntry(log[j])
    ensures IsUserEntry(log[start + c])
      || forall j :: start <= j < start + c && log[j].Entry? ==> !Fits(log, j, keep)
  {
    hide Fits, IsUserEntry;
    assert log[start + c] == log[start..][c];
    forall j | start <= j < |log| ensures log[j] == log[start..][j - start] {}
  }

  lemma EntriesOfSlice(log: seq<Event>, start: nat)
    requires start <= |log|
    ensures (exists i :: start < i < |log| && log[i].Entry?) <==>
      exists i :: 0 < i < |log| - start && log[start..][i].Entry?
  {
    if i :| start < i < |log| && log[i].Entry? {
      assert log[start..][i - start].Entry?;
    }
    if i :| 0 < i < |log| - start && log[start..][i].Entry? {
      assert log[start + i].Entry?;
    }
  }

  // ---- The cut is determined ----

  /** `c` starts the kept tail: with the whole overflowing, at the first user entry that fits or a substitute. */
  ghost predicate BestCut(log: seq<Event>, start: nat, keep: nat, c: nat)
    requires start <= |log|
  {
    && start < c < |log| && log[c].Entry? && !Fits(log, start, keep)
    && (Fits(log, c, keep) || forall j :: c < j < |log| ==> !log[j].Entry?)
    && (if IsUserEntry(log[c]) then forall j :: start <= j < c && IsUserEntry(log[j]) ==> !Fits(log, j, keep)
        else
          && (forall j :: c <= j < |log| ==> !IsUserEntry(log[j]))
          && (forall j :: start <= j < c && log[j].Entry? ==> !Fits(log, j, keep)))
  }

  lemma BestCutUnique(log: seq<Event>, start: nat, keep: nat, a: nat, b: nat)
    requires start <= |log| && BestCut(log, start, keep, a) && BestCut(log, start, keep, b)
    ensures a == b
  {
    hide Fits;
  }

  /** The conditions determine the cut: it is the only one that meets them, and there is none when none does. */
  lemma CutExactly(log: seq<Event>, keep: nat, cut: Cut)
    ensures CutSpec(log, keep) == Some(cut) <==>
      && cut.foldStart == FoldStart(log)
      && BestCut(log, FoldStart(log), keep, cut.keptStart)
      && cut.firstKept == log[cut.keptStart].entryId
  {
    CutIsBest(log, keep);
    var start := FoldStart(log);
    hide CutSpec, FoldStart, Fits;
    if BestCut(log, start, keep, cut.keptStart) {
      assert CutSpec(log, keep).Some?;
      BestCutUnique(log, start, keep, cut.keptStart, CutSpec(log, keep).value.keptStart);
    }
  }
}
