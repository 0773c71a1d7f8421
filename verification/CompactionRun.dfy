/**
Whole sessions of appends and compactions (compaction.rs, driven as in
runner.rs): fold ranges tile the log, and the newest checkpoint lists exactly
the files touched in the folded prefix.
*/
module CompactionRun {
  import opened Results
  import opened SessionLog
  import opened Compaction

  // ---- File lists ----

  /** Reads the `path` argument of a tool call; the JSON parser is a parameter. */
  type PathReader = string -> Option<string>

  function ReadBy(e: Event, pathOf: PathReader): set<string> {
    if e.ToolRequest? && e.arguments.Some? && pathOf(e.arguments.value).Some? && e.toolName == "read_text_file"
    then {pathOf(e.arguments.value).value} else {}
  }

  function ModifiedBy(e: Event, pathOf: PathReader): set<string> {
    if e.ToolRequest? && e.arguments.Some? && pathOf(e.arguments.value).Some?
       && (e.toolName == "edit_text_file" || e.toolName == "create_text_file")
    then {pathOf(e.arguments.value).value} else {}
  }

  /** Every file a list of events read or modified. */
  ghost function FilesOf(events: seq<Event>, pathOf: PathReader): FileDetails {
    FileDetails(
      set i, f | 0 <= i < |events| && f in ReadBy(events[i], pathOf) :: f,
      set i, f | 0 <= i < |events| && f in ModifiedBy(events[i], pathOf) :: f)
  }

  /** `e` calls one of the named tools on file `f`. */
  ghost predicate CallsOn(e: Event, names: set<string>, f: string, pathOf: PathReader) {
    && e.ToolRequest? && e.toolName in names
    && exists arguments :: e.arguments == Some(arguments) && pathOf(arguments) == Some(f)
  }

  /** Files are read by one tool and modified by two. */
  lemma FilesExactly(events: seq<Event>, pathOf: PathReader, f: string)
    ensures f in FilesOf(events, pathOf).readFiles <==>
      exists i :: 0 <= i < |events| && CallsOn(events[i], {"read_text_file"}, f, pathOf)
    ensures f in FilesOf(events, pathOf).modifiedFiles <==>
      exists i :: 0 <= i < |events| && CallsOn(events[i], {"edit_text_file", "create_text_file"}, f, pathOf)
  {
    forall i | 0 <= i < |events|
      ensures f in ReadBy(events[i], pathOf) <==> CallsOn(events[i], {"read_text_file"}, f, pathOf)
      ensures f in ModifiedBy(events[i], pathOf) <==>
        CallsOn(events[i], {"edit_text_file", "create_text_file"}, f, pathOf)
    {
    }
  }

  ghost function Union(a: FileDetails, b: FileDetails): FileDetails {
    FileDetails(a.readFiles + b.readFiles, a.modifiedFiles + b.modifiedFiles)
  }

  const NO_FILES := FileDetails({}, {})

  method MergeFileDetails(previous: Option<FileDetails>, folded: seq<Event>, pathOf: PathReader)
    returns (details: FileDetails)
    ensures details == Merged(previous, folded, pathOf)
  {
    var readFiles := if previous.Some? then previous.value.readFiles else {};
    var modifiedFiles := if previous.Some? then previous.value.modifiedFiles else {};
    ghost var before := if previous.Some? then previous.value else NO_FILES;
    for i := 0 to |folded|
      invariant FileDetails(readFiles, modifiedFiles) == Union(before, FilesOf(folded[..i], pathOf))
    {
      var e := folded[i];
      FilesOfConcat(folded[..i], [e], pathOf);
      assert folded[..i] + [e] == folded[..i + 1];
      FilesOfOne(e, pathOf);
      if e.ToolRequest? && e.arguments.Some? {
        var path := pathOf(e.arguments.value);
        if path.Some? {
          if e.toolName == "read_text_file" {
            readFiles := readFiles + {path.value};
          } else if e.toolName == "edit_text_file" || e.toolName == "create_text_file" {
            modifiedFiles := modifiedFiles + {path.value};
          }
        }
      }
    }
    assert folded[..|folded|] == folded;
    return FileDetails(readFiles, modifiedFiles);
  }

  ghost function Merged(previous: Option<FileDetails>, folded: seq<Event>, pathOf: PathReader): FileDetails {
    Union(if previous.Some? then previous.value else NO_FILES, FilesOf(folded, pathOf))
  }

  lemma FilesOfOne(e: Event, pathOf: PathReader)
    ensures FilesOf([e], pathOf) == FileDetails(ReadBy(e, pathOf), ModifiedBy(e, pathOf))
  {
    var one := [e];
    assert one[0] == e;
    forall f | f in ReadBy(e, pathOf) ensures f in FilesOf(one, pathOf).readFiles {
      assert f in ReadBy(one[0], pathOf);
    }
    forall f | f in ModifiedBy(e, pathOf) ensures f in FilesOf(one, pathOf).modifiedFiles {
      assert f in ModifiedBy(one[0], pathOf);
    }
  }

  lemma FilesOfConcat(a: seq<Event>, b: seq<Event>, pathOf: PathReader)
    ensures FilesOf(a + b, pathOf) == Union(FilesOf(a, pathOf), FilesOf(b, pathOf))
  {
    var c := a + b;
    forall i | 0 <= i < |c|
      ensures ReadBy(c[i], pathOf) <= Union(FilesOf(a, pathOf), FilesOf(b, pathOf)).readFiles
      ensures ModifiedBy(c[i], pathOf) <= Union(FilesOf(a, pathOf), FilesOf(b, pathOf)).modifiedFiles
    {
      if i < |a| { assert c[i] == a[i]; } else { assert c[i] == b[i - |a|]; }
    }
    forall i | 0 <= i < |a|
      ensures ReadBy(a[i], pathOf) <= FilesOf(c, pathOf).readFiles
      ensures ModifiedBy(a[i], pathOf) <= FilesOf(c, pathOf).modifiedFiles
    {
      assert c[i] == a[i];
    }
    forall i | 0 <= i < |b|
      ensures ReadBy(b[i], pathOf) <= FilesOf(c, pathOf).readFiles
      ensures ModifiedBy(b[i], pathOf) <= FilesOf(c, pathOf).modifiedFiles
    {
      assert c[|a| + i] == b[i];
    }
  }

  /** Merging over consecutive folds is merging once over both. */
  lemma MergeIsIncremental(previous: Option<FileDetails>, a: seq<Event>, b: seq<Event>, pathOf: PathReader)
    ensures Merged(Some(Merged(previous, a, pathOf)), b, pathOf) == Merged(previous, a + b, pathOf)
  {
    FilesOfConcat(a, b, pathOf);
  }

  // ---- Runs ----

  /**
  A compaction selects its cut, lets other events (attempt records, masks, even
  entries) be appended, and then appends its checkpoint.
  */
  datatype Step = Append(event: Event) | Compact(keep: nat, between: seq<Event>, turn: Id, summary: string)

  ghost predicate LegalStep(step: Step) {
    match step
    case Append(e) => !e.Checkpoint?
    case Compact(_, between, _, _) => NoCheckpoints(between)
  }

  ghost predicate LegalSteps(steps: seq<Step>) {
    forall step <- steps :: LegalStep(step)
  }

  datatype Fold = Fold(start: nat, end: nat)

  datatype Session = Session(log: seq<Event>, folds: seq<Fold>)

  ghost function CheckpointFor(log: seq<Event>, cut: Cut, turn: Id, summary: string, pathOf: PathReader): Event
    requires cut.foldStart <= cut.keptStart <= |log|
  {
    var view := NewestCheckpoint(log);
    var previous := if view.Some? then Some(view.value.details) else None;
    Checkpoint(turn, summary, cut.firstKept, Merged(previous, log[cut.foldStart..cut.keptStart], pathOf))
  }

  ghost function Advance(s: Session, step: Step, pathOf: PathReader): Session {
    match step
    case Append(e) => s.(log := s.log + [e])
    case Compact(keep, between, turn, summary) =>
      var cut := CutSpec(s.log, keep);
      if cut.Some? && cut.value.foldStart <= cut.value.keptStart <= |s.log| then
        Session(s.log + between + [CheckpointFor(s.log, cut.value, turn, summary, pathOf)],
                s.folds + [Fold(cut.value.foldStart, cut.value.keptStart)])
      else s
  }

  ghost function Run(steps: seq<Step>, pathOf: PathReader): Session {
    if steps == [] then Session([], [])
    else Advance(Run(steps[..|steps| - 1], pathOf), steps[|steps| - 1], pathOf)
  }

  // ---- Tiling ----

  /** Each fold is non-empty and begins where the one before it ended; the last ends at an entry. */
  ghost predicate Tiles(folds: seq<Fold>, log: seq<Event>) {
    && (folds != [] ==> folds[0].start == 0)
    && (forall i :: 0 <= i < |folds| ==> folds[i].start < folds[i].end < |log| && log[folds[i].end].Entry?)
    && (forall i :: 0 < i < |folds| ==> folds[i].start == folds[i - 1].end)
  }

  /** The newest checkpoint speaks for the last fold. */
  ghost predicate CheckpointAgrees(s: Session, pathOf: PathReader) {
    if s.folds == [] then NewestCheckpoint(s.log).None?
    else
      var view := NewestCheckpoint(s.log);
      var end := s.folds[|s.folds| - 1].end;
      && view.Some? && view.value.keptStart == end <= |s.log|
      && view.value.details == FilesOf(s.log[..end], pathOf)
      && end < |s.log| && s.log[end].Entry? && s.log[end].entryId == view.value.firstKept
  }

  lemma AppendKeepsAgreement(s: Session, more: seq<Event>, pathOf: PathReader)
    requires NoCheckpoints(more) && CheckpointAgrees(s, pathOf) && Tiles(s.folds, s.log)
    ensures CheckpointAgrees(s.(log := s.log + more), pathOf) && Tiles(s.folds, s.log + more)
  {
    hide FilesOf;
    var log := s.log + more;
    assert KeepsBoundary(s.log, more) by {
      var k := NewestCheckpointIndex(s.log, |s.log|);
      if k.Some? {
        var end := s.folds[|s.folds| - 1].end;
        assert s.log[end].Entry? && s.log[end].entryId == s.log[k.value].firstKept;
      }
    }
    CheckpointSurvivesAppend(s.log, more);
    forall i | 0 <= i < |s.folds| ensures log[s.folds[i].end].Entry? {
      assert log[s.folds[i].end] == s.log[s.folds[i].end];
    }
    if s.folds != [] {
      var end := s.folds[|s.folds| - 1].end;
      assert log[..end] == s.log[..end];
    }
  }

  lemma CompactKeepsAgreement(s: Session, step: Step, pathOf: PathReader)
    requires step.Compact? && LegalStep(step) && CheckpointAgrees(s, pathOf) && Tiles(s.folds, s.log)
    requires DistinctEntries(Advance(s, step, pathOf).log)
    ensures
      var t := Advance(s, step, pathOf);
      CheckpointAgrees(t, pathOf) && Tiles(t.folds, t.log)
  {
    hide FilesOf, CutSpec, NewestCheckpoint, FoldStart;
    CutIsBest(s.log, step.keep);
    var cut := CutSpec(s.log, step.keep);
    if cut.Some? {
      var c := CheckpointFor(s.log, cut.value, step.turn, step.summary, pathOf);
      var log, kept, t := s.log + step.between, cut.value.keptStart, Advance(s, step, pathOf);
      assert t.log == log + [c];
      assert DistinctEntries(log) by {
        forall i, j | 0 <= i < j < |log| && log[i].Entry? && log[j].Entry? ensures log[i].entryId != log[j].entryId {
          assert t.log[i] == log[i] && t.log[j] == log[j];
        }
      }
      assert log[kept] == s.log[kept] == t.log[kept];
      NewCheckpointView(log, c, kept);
      FoldFollows(s, pathOf);
      DetailsFollow(s, cut.value, c, step.turn, step.summary, pathOf);
      assert t.log[..kept] == s.log[..kept];
      forall i | 0 <= i < |s.folds| ensures t.log[s.folds[i].end].Entry? {
        assert t.log[s.folds[i].end] == s.log[s.folds[i].end];
      }
    }
  }

  /** The next fold starts where the last one ended. */
  lemma FoldFollows(s: Session, pathOf: PathReader)
    requires CheckpointAgrees(s, pathOf)
    ensures FoldStart(s.log) == if s.folds == [] then 0 else s.folds[|s.folds| - 1].end
  {
    hide NewestCheckpoint, FilesOf;
  }

  lemma DetailsFollow(s: Session, cut: Cut, c: Event, turn: Id, summary: string, pathOf: PathReader)
    requires CheckpointAgrees(s, pathOf) && cut.foldStart == FoldStart(s.log) <= cut.keptStart <= |s.log|
    requires c == CheckpointFor(s.log, cut, turn, summary, pathOf)
    ensures c.details == FilesOf(s.log[..cut.keptStart], pathOf)
  {
    FoldFollows(s, pathOf);
    hide NewestCheckpoint, FoldStart;
    FilesOfConcat(s.log[..cut.foldStart], s.log[cut.foldStart..cut.keptStart], pathOf);
    assert s.log[..cut.foldStart] + s.log[cut.foldStart..cut.keptStart] == s.log[..cut.keptStart];
    if s.folds == [] {
      assert s.log[..cut.foldStart] == [];
      assert FilesOf([], pathOf) == NO_FILES;
    }
  }

  lemma {:induction false} RunInvariant(steps: seq<Step>, pathOf: PathReader)
    requires LegalSteps(steps) && DistinctEntries(Run(steps, pathOf).log)
    ensures var s := Run(steps, pathOf); CheckpointAgrees(s, pathOf) && Tiles(s.folds, s.log)
    decreases |steps|
  {
    hide NewestCheckpoint, FilesOf, CutSpec, CheckpointFor;
    if steps == [] {
      NoCheckpointInEmptyLog();
    } else {
      var n := |steps| - 1;
      var before, s := Run(steps[..n], pathOf), Run(steps, pathOf);
      assert steps[n] in steps && forall step <- steps[..n] :: step in steps;
      assert before.log <= s.log;
      assert forall i :: 0 <= i < |before.log| ==> before.log[i] == s.log[i];
      RunInvariant(steps[..n], pathOf);
      if steps[n].Append? {
        AppendKeepsAgreement(before, [steps[n].event], pathOf);
      } else {
        CompactKeepsAgreement(before, steps[n], pathOf);
      }
    }
  }

  lemma NoCheckpointInEmptyLog()
    ensures NewestCheckpoint([]).None?
  {
  }

  /** A tool request and its result with no entry between them. */
  ghost predicate ToolPair(log: seq<Event>, i: nat, j: nat) {
    && i < j < |log| && log[i].ToolRequest? && log[j].ToolFinished?
    && log[i].turn == log[j].turn && log[i].request == log[j].request
    && forall k :: i < k < j ==> !log[k].Entry?
  }

  /**
  Over every run with distinct entry ids: fold ranges tile the log from its
  start, none is empty, the kept boundary strictly advances and stays inside the
  log, no boundary separates a tool request from its result, and the newest
  checkpoint lists exactly the files read and modified before the boundary.
  */
  lemma FoldsTileTheLog(steps: seq<Step>, pathOf: PathReader)
    requires LegalSteps(steps) && DistinctEntries(Run(steps, pathOf).log)
    ensures
      var s := Run(steps, pathOf);
      && (s.folds != [] ==> s.folds[0].start == 0)
      && (forall i :: 0 <= i < |s.folds| ==> s.folds[i].start < s.folds[i].end < |s.log|)
      && (forall i :: 0 < i < |s.folds| ==> s.folds[i].start == s.folds[i - 1].end)
      && (forall f: nat, i: nat, j: nat :: f < |s.folds| && ToolPair(s.log, i, j) ==> !(i < s.folds[f].end <= j))
      && (s.folds != [] ==>
            var view, end := NewestCheckpoint(s.log), s.folds[|s.folds| - 1].end;
            view.Some? && view.value.keptStart == end && view.value.details == FilesOf(s.log[..end], pathOf))
  {
    hide NewestCheckpoint, FilesOf, Run;
    RunInvariant(steps, pathOf);
  }
}
