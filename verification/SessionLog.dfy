/**
The append-only session log and its token accounting (compaction.rs).  A text
is the sequence of its UTF-8 bytes, one `char` per byte.
*/
module SessionLog {
  import opened Results
  import opened Widths
  import opened Decimals

  type Id = string

  datatype Role = User | Assistant | ToolRole | System

  datatype TurnOutcome = Completed | Failed | Cancelled

  /** The file lists of a checkpoint's `details`; each is printed in ascending order. */
  datatype FileDetails = FileDetails(readFiles: set<string>, modifiedFiles: set<string>)

  datatype Event =
    | Entry(turn: Id, entryId: Id, role: Role, text: string)
    | ToolRequest(turn: Id, request: Id, toolName: string, arguments: Option<string>)
    | ToolFinished(turn: Id, request: Id, result: Option<string>)
    | Masked(turn: Id, maskedTurn: Id, request: Id, bytesFreed: nat)
    | TurnFinished(turn: Id, outcome: TurnOutcome)
    | Checkpoint(turn: Id, summary: string, firstKept: Id, details: FileDetails)
    | Other

  function Saturate(n: nat): nat {
    if n > U64_MAX then U64_MAX else n
  }

  // ---- Tokens ----

  function TextTokens(text: string): nat {
    (|text| + 3) / 4
  }

  function MaskMarker(bytesFreed: nat): string {
    "[result masked by compaction: " + Decimal(bytesFreed) + " bytes; re-read the source if needed]"
  }

  function EventTokens(e: Event): nat {
    match e
    case Entry(_, _, _, text) => TextTokens(text)
    case ToolRequest(_, _, _, arguments) => if arguments.Some? then TextTokens(arguments.value) else 0
    case ToolFinished(_, _, result) => if result.Some? then TextTokens(result.value) else 0
    case Checkpoint(_, summary, _, _) => TextTokens(summary)
    case _ => 0
  }

  /** `tokens` groups of four bytes hold `length` bytes, and no fewer do. */
  ghost predicate Covers(tokens: nat, length: nat) {
    4 * tokens >= length && 4 * tokens < length + 4
  }

  /** The text an event is counted by. */
  ghost predicate Carries(e: Event, text: string) {
    || (e.Entry? && e.text == text)
    || (e.ToolRequest? && e.arguments == Some(text))
    || (e.ToolFinished? && e.result == Some(text))
    || (e.Checkpoint? && e.summary == text)
  }

  /** An event costs a token for every four bytes of its text, the last group rounded up, or nothing. */
  lemma EventTokensByText(e: Event)
    ensures forall text :: Carries(e, text) ==> Covers(EventTokens(e), |text|)
    ensures (forall text :: !Carries(e, text)) ==> EventTokens(e) == 0
  {
    if EventTokens(e) != 0 {
      var text := match e
        case Entry(_, _, _, text) => text
        case ToolRequest(_, _, _, arguments) => arguments.value
        case ToolFinished(_, _, result) => result.value
        case Checkpoint(_, summary, _, _) => summary;
      assert Carries(e, text);
    }
  }

  /** The marker names the size it stands for: between 30 characters before and 37 after stand its digits. */
  lemma MarkerNamesSize(bytesFreed: nat)
    ensures
      var marker := MaskMarker(bytesFreed);
      && |marker| > 67 && "[result masked by compaction: " <= marker
      && marker[|marker| - 37..] == " bytes; re-read the source if needed]"
      && DigitsValue(marker[30..|marker| - 37]) == Some(bytesFreed)
  {
    var marker := MaskMarker(bytesFreed);
    DecimalRoundTrip(bytesFreed);
    assert marker[30..|marker| - 37] == Decimal(bytesFreed);
  }

  type ResultKey = (Id, Id)

  type MaskMap = map<ResultKey, nat>

  function MaskedTokens(e: Event, masks: MaskMap): nat {
    if e.ToolFinished? && (e.turn, e.request) in masks
    then TextTokens(MaskMarker(masks[(e.turn, e.request)]))
    else EventTokens(e)
  }

  /** The first mask of a result counts. */
  function MasksOf(events: seq<Event>): MaskMap {
    if events == [] then map[]
    else
      var masks, e := MasksOf(events[..|events| - 1]), events[|events| - 1];
      if e.Masked? && (e.maskedTurn, e.request) !in masks
      then masks[(e.maskedTurn, e.request) := e.bytesFreed]
      else masks
  }

  ghost predicate MasksKey(e: Event, key: ResultKey) {
    e.Masked? && (e.maskedTurn, e.request) == key
  }

  /** A result is masked exactly when some event masks it, and by the first that does. */
  lemma {:induction false} MasksOfExactly(events: seq<Event>, key: ResultKey)
    ensures key in MasksOf(events) <==> exists i :: 0 <= i < |events| && MasksKey(events[i], key)
    ensures key in MasksOf(events) ==>
      exists i :: 0 <= i < |events| && MasksKey(events[i], key) && MasksOf(events)[key] == events[i].bytesFreed
                  && forall j :: 0 <= j < i ==> !MasksKey(events[j], key)
    decreases |events|
  {
    if events != [] {
      var n := |events| - 1;
      var before := events[..n];
      MasksOfExactly(before, key);
      assert forall i :: 0 <= i < n ==> before[i] == events[i];
      if key in MasksOf(before) {
        var i :| 0 <= i < n && MasksKey(before[i], key) && MasksOf(before)[key] == before[i].bytesFreed
                 && forall j :: 0 <= j < i ==> !MasksKey(before[j], key);
        assert MasksKey(events[i], key);
      } else if key in MasksOf(events) {
        assert MasksKey(events[n], key);
      }
    }
  }

  method MaskedResultMap(events: seq<Event>) returns (masks: MaskMap)
    ensures masks == MasksOf(events)
  {
    masks := map[];
    for i := 0 to |events|
      invariant masks == MasksOf(events[..i])
    {
      assert events[..i + 1][..i] == events[..i];
      var e := events[i];
      if e.Masked? && (e.maskedTurn, e.request) !in masks {
        masks := masks[(e.maskedTurn, e.request) := e.bytesFreed];
      }
    }
    assert events[..|events|] == events;
  }

  /** Tokens of the events from index `i` on. */
  function TokensFrom(events: seq<Event>, masks: MaskMap, i: nat): nat
    requires i <= |events|
    decreases |events| - i
  {
    if i == |events| then 0 else MaskedTokens(events[i], masks) + TokensFrom(events, masks, i + 1)
  }

  /** `estimate_events_tokens` */
  function EstimateEvents(events: seq<Event>): nat {
    TokensFrom(events, MasksOf(events), 0)
  }

  lemma {:induction false} TokensShrink(events: seq<Event>, masks: MaskMap, i: nat, j: nat)
    requires i <= j <= |events|
    ensures TokensFrom(events, masks, j) <= TokensFrom(events, masks, i)
    decreases j - i
  {
    if i < j {
      TokensShrink(events, masks, i + 1, j);
    }
  }

  lemma {:induction false} TokensOfSlice(events: seq<Event>, masks: MaskMap, s: nat, i: nat)
    requires s + i <= |events|
    ensures TokensFrom(events[s..], masks, i) == TokensFrom(events, masks, s + i)
    decreases |events| - s - i
  {
    if s + i < |events| {
      TokensOfSlice(events, masks, s, i + 1);
    }
  }

  /** Masks, turn ends and records cost nothing. */
  predicate Quiet(e: Event) {
    e.Masked? || e.TurnFinished? || e.Other?
  }

  lemma {:induction false} TokensWithQuiet(events: seq<Event>, more: seq<Event>, masks: MaskMap, i: nat)
    requires i <= |events + more| && forall e <- more :: Quiet(e)
    ensures TokensFrom(events + more, masks, i) == if i <= |events| then TokensFrom(events, masks, i) else 0
    decreases |events + more| - i
  {
    hide MaskMarker;
    var all := events + more;
    if i < |all| {
      TokensWithQuiet(events, more, masks, i + 1);
      if i < |events| {
        assert all[i] == events[i];
      } else {
        assert all[i] == more[i - |events|] && all[i] in more;
        assert i == |events| ==> TokensFrom(events, masks, i) == 0;
      }
    }
  }

  lemma {:induction false} MasksOfAppend(events: seq<Event>, more: seq<Event>)
    requires forall e <- more :: !e.Masked?
    ensures MasksOf(events + more) == MasksOf(events)
  {
    if more == [] {
      assert events + more == events;
    } else {
      var n := |more| - 1;
      MasksOfAppend(events, more[..n]);
      assert (events + more)[..|events| + n] == events + more[..n];
    }
  }

  // ---- Checkpoints ----

  /** Index of the newest checkpoint among the first `n` events. */
  function NewestCheckpointIndex(log: seq<Event>, n: nat): (r: Option<nat>)
    requires n <= |log|
    ensures r.Some? ==> r.value < n && log[r.value].Checkpoint? && forall i :: r.value < i < n ==> !log[i].Checkpoint?
    ensures r.None? ==> forall i :: 0 <= i < n ==> !log[i].Checkpoint?
  {
    if n == 0 then None
    else if log[n - 1].Checkpoint? then Some(n - 1)
    else NewestCheckpointIndex(log, n - 1)
  }

  /** Index of the oldest entry with the given id, from `i` on. */
  function EntryIndex(log: seq<Event>, id: Id, i: nat): (r: Option<nat>)
    requires i <= |log|
    ensures r.Some? ==> i <= r.value < |log| && log[r.value].Entry? && log[r.value].entryId == id
    ensures r.Some? ==> forall j :: i <= j < r.value ==> !(log[j].Entry? && log[j].entryId == id)
    ensures r.None? ==> forall j :: i <= j < |log| ==> !(log[j].Entry? && log[j].entryId == id)
    decreases |log| - i
  {
    if i == |log| then None
    else if log[i].Entry? && log[i].entryId == id then Some(i)
    else EntryIndex(log, id, i + 1)
  }

  datatype CheckpointView = CheckpointView(summary: string, details: FileDetails, firstKept: Id, keptStart: nat)

  /** `newest_compaction_checkpoint` */
  function NewestCheckpoint(log: seq<Event>): (r: Option<CheckpointView>)
    ensures r.Some? ==> r.value.keptStart <= |log|
  {
    match NewestCheckpointIndex(log, |log|)
    case None => None
    case Some(k) =>
      var c := log[k];
      var start := match EntryIndex(log, c.firstKept, 0) case Some(i) => i case None => k + 1;
      Some(CheckpointView(c.summary, c.details, c.firstKept, start))
  }

  ghost predicate IsEntryWith(e: Event, id: Id) {
    e.Entry? && e.entryId == id
  }

  /**
  The newest checkpoint is the last one of the log, as written; its tail is kept
  from the first entry it names, or from just after it when there is none.
  */
  lemma NewestCheckpointExactly(log: seq<Event>, view: CheckpointView)
    ensures NewestCheckpoint(log) == Some(view) <==>
      exists k :: 0 <= k < |log| && log[k].Checkpoint? && (forall i :: k < i < |log| ==> !log[i].Checkpoint?)
        && view.summary == log[k].summary && view.details == log[k].details && view.firstKept == log[k].firstKept
        && (if exists i :: 0 <= i < |log| && IsEntryWith(log[i], view.firstKept)
            then view.keptStart < |log| && IsEntryWith(log[view.keptStart], view.firstKept)
                 && forall i :: 0 <= i < view.keptStart ==> !IsEntryWith(log[i], view.firstKept)
            else view.keptStart == k + 1)
    ensures NewestCheckpoint(log).None? <==> forall i :: 0 <= i < |log| ==> !log[i].Checkpoint?
  {
    var newest := NewestCheckpointIndex(log, |log|);
    if newest.Some? {
      var id := log[newest.value].firstKept;
      var i := EntryIndex(log, id, 0);
      assert i.Some? ==> IsEntryWith(log[i.value], id);
    }
  }

  ghost predicate DistinctEntries(log: seq<Event>) {
    forall i, j :: 0 <= i < j < |log| && log[i].Entry? && log[j].Entry? ==> log[i].entryId != log[j].entryId
  }

  ghost predicate NoCheckpoints(events: seq<Event>) {
    forall e <- events :: !e.Checkpoint?
  }

  lemma IndexSurvivesAppend(log: seq<Event>, more: seq<Event>)
    requires NoCheckpoints(more)
    ensures NewestCheckpointIndex(log + more, |log + more|) == NewestCheckpointIndex(log, |log|)
  {
    var all := log + more;
    var k, k' := NewestCheckpointIndex(log, |log|), NewestCheckpointIndex(all, |all|);
    assert forall i :: |log| <= i < |all| ==> all[i] in more;
    assert forall i :: 0 <= i < |log| ==> all[i] == log[i];
  }

  lemma EntrySurvivesAppend(log: seq<Event>, more: seq<Event>, id: Id)
    requires EntryIndex(log, id, 0).Some? || forall e <- more :: !(e.Entry? && e.entryId == id)
    ensures EntryIndex(log + more, id, 0) == EntryIndex(log, id, 0)
  {
    var all := log + more;
    var a, b := EntryIndex(log, id, 0), EntryIndex(all, id, 0);
    assert forall i :: 0 <= i < |log| ==> all[i] == log[i];
    assert forall i :: |log| <= i < |all| ==> all[i] in more;
  }

  /** The newest checkpoint's entry is in the log, or at least not among `more`. */
  ghost predicate KeepsBoundary(log: seq<Event>, more: seq<Event>) {
    var k := NewestCheckpointIndex(log, |log|);
    k.Some? ==>
      || EntryIndex(log, log[k.value].firstKept, 0).Some?
      || (forall e <- more :: !(e.Entry? && e.entryId == log[k.value].firstKept))
  }

  /** Appending other events leaves the newest checkpoint and its kept boundary alone. */
  lemma CheckpointSurvivesAppend(log: seq<Event>, more: seq<Event>)
    requires NoCheckpoints(more) && KeepsBoundary(log, more)
    ensures NewestCheckpoint(log + more) == NewestCheckpoint(log)
  {
    IndexSurvivesAppend(log, more);
    var k := NewestCheckpointIndex(log, |log|);
    if k.Some? {
      assert (log + more)[k.value] == log[k.value];
      EntrySurvivesAppend(log, more, log[k.value].firstKept);
    }
  }

  /** A new checkpoint that names an entry of a log with distinct ids keeps from that entry on. */
  lemma NewCheckpointView(log: seq<Event>, c: Event, kept: nat)
    requires c.Checkpoint? && DistinctEntries(log) && kept < |log|
    requires log[kept].Entry? && log[kept].entryId == c.firstKept
    ensures NewestCheckpoint(log + [c]) == Some(CheckpointView(c.summary, c.details, c.firstKept, kept))
  {
    var all := log + [c];
    assert all[|log|] == c;
    var b := EntryIndex(all, c.firstKept, 0);
    assert all[kept] == log[kept];
    assert b.Some? && b.value <= kept;
    assert all[b.value] == log[b.value];
  }
}
