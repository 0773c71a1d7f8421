/** Masking old tool results (`select_mask_candidates` in compaction.rs). */
module Masking {
  import opened Results
  import opened Widths
  import opened Decimals
  import opened SessionLog
  import opened Compaction

  datatype Candidate = Candidate(turn: Id, request: Id, bytes: nat, netTokens: nat)

  /** What a selection pass reads: the unfolded events, the masks so far, finished turns and its arguments. */
  datatype Pass = Pass(events: seq<Event>, masks: MaskMap, finished: set<Id>, current: Id, protect: nat)

  function FinishedIn(events: seq<Event>): set<Id> {
    set i | 0 <= i < |events| && events[i].TurnFinished? :: events[i].turn
  }

  function PassFor(log: seq<Event>, current: Id, protect: nat): Pass {
    var events := log[FoldStart(log)..];
    Pass(events, MasksOf(log), FinishedIn(events), current, protect)
  }

  /** A kept result of a finished, earlier turn that is not masked yet. */
  predicate Eligible(p: Pass, e: Event) {
    && e.ToolFinished? && e.result.Some?
    && e.turn != p.current && e.turn in p.finished && (e.turn, e.request) !in p.masks
  }

  /** Tokens protected once the events from `i` on have been walked, newest first. */
  function Protected(p: Pass, i: nat): (r: nat)
    requires i <= |p.events|
    ensures r <= U64_MAX
    decreases |p.events| - i
  {
    if i == |p.events| then 0
    else
      var before, e := Protected(p, i + 1), p.events[i];
      if Eligible(p, e) && before < p.protect then Saturate(before + TextTokens(e.result.value)) else before
  }

  function NetTokens(result: string): nat {
    var body, marker := TextTokens(result), TextTokens(MaskMarker(|result|));
    if body > marker then body - marker else 0
  }

  predicate IsCandidate(p: Pass, i: nat)
    requires i < |p.events|
  {
    && Eligible(p, p.events[i]) && Protected(p, i + 1) >= p.protect
    && NetTokens(p.events[i].result.value) > 0
  }

  function CandidateAt(p: Pass, i: nat): Candidate
    requires i < |p.events| && IsCandidate(p, i)
  {
    var e := p.events[i];
    Candidate(e.turn, e.request, |e.result.value|, NetTokens(e.result.value))
  }

  /** Candidates from index `i` on, oldest first. */
  function CandidatesFrom(p: Pass, i: nat): seq<Candidate>
    requires i <= |p.events|
    decreases |p.events| - i
  {
    if i == |p.events| then []
    else (if IsCandidate(p, i) then [CandidateAt(p, i)] else []) + CandidatesFrom(p, i + 1)
  }

  function Reversed(s: seq<Candidate>): seq<Candidate> {
    if s == [] then [] else Reversed(s[1..]) + [s[0]]
  }

  lemma {:induction false} ReversedAppend(s: seq<Candidate>, c: Candidate)
    ensures Reversed(s + [c]) == [c] + Reversed(s)
  {
    if s != [] {
      ReversedAppend(s[1..], c);
      assert (s + [c])[1..] == s[1..] + [c];
    }
  }

  method SelectMaskCandidates(log: seq<Event>, current: Id, protect: nat) returns (r: seq<Candidate>)
    ensures r == CandidatesFrom(PassFor(log, current, protect), 0)
  {
    hide MasksOf, FoldStart, MaskMarker;
    var p := PassFor(log, current, protect);
    var protectedTokens, found, i := 0, [], |p.events|;
    while i > 0
      invariant 0 <= i <= |p.events|
      invariant protectedTokens == Protected(p, i)
      invariant Reversed(found) == CandidatesFrom(p, i)
    {
      i := i - 1;
      var e := p.events[i];
      if Eligible(p, e) {
        if protectedTokens < protect {
          protectedTokens := Saturate(protectedTokens + TextTokens(e.result.value));
        } else {
          var net := NetTokens(e.result.value);
          if net > 0 {
            ReversedAppend(found, Candidate(e.turn, e.request, |e.result.value|, net));
            found := found + [Candidate(e.turn, e.request, |e.result.value|, net)];
          }
        }
      }
    }
    r := Reversed(found);
  }

  // ---- Applying the masks ----

  /** The events the runner appends for a list of candidates. */
  function MaskEvents(candidates: seq<Candidate>, turn: Id): seq<Event> {
    seq(|candidates|, i requires 0 <= i < |candidates| =>
      Masked(turn, candidates[i].turn, candidates[i].request, candidates[i].bytes))
  }

  function NetSum(candidates: seq<Candidate>): nat {
    if candidates == [] then 0 else candidates[0].netTokens + NetSum(candidates[1..])
  }

  /** Where a candidate comes from. */
  lemma {:induction false} CandidateSource(p: Pass, i: nat, c: Candidate) returns (j: nat)
    requires i <= |p.events| && c in CandidatesFrom(p, i)
    ensures i <= j < |p.events| && IsCandidate(p, j) && c == CandidateAt(p, j)
    decreases |p.events| - i
  {
    if IsCandidate(p, i) && c == CandidateAt(p, i) {
      j := i;
    } else {
      j := CandidateSource(p, i + 1, c);
    }
  }

  lemma {:induction false} CandidatesInclude(p: Pass, i: nat, j: nat)
    requires i <= j < |p.events| && IsCandidate(p, j)
    ensures CandidateAt(p, j) in CandidatesFrom(p, i)
    decreases |p.events| - i
  {
    if i < j {
      CandidatesInclude(p, i + 1, j);
    }
  }

  function ResultKeyOf(e: Event): ResultKey
    requires e.ToolFinished?
  {
    (e.turn, e.request)
  }

  /** The size recorded by the first candidate with the given key. */
  function FirstMask(candidates: seq<Candidate>, key: ResultKey): Option<nat> {
    if candidates == [] then None
    else if (candidates[0].turn, candidates[0].request) == key then Some(candidates[0].bytes)
    else FirstMask(candidates[1..], key)
  }

  lemma {:induction false} FirstMaskAppend(candidates: seq<Candidate>, c: Candidate, key: ResultKey)
    ensures FirstMask(candidates + [c], key) ==
      if FirstMask(candidates, key).Some? then FirstMask(candidates, key)
      else if (c.turn, c.request) == key then Some(c.bytes) else None
  {
    if candidates != [] {
      FirstMaskAppend(candidates[1..], c, key);
      assert (candidates + [c])[1..] == candidates[1..] + [c];
    } else {
      assert candidates + [c] == [c];
    }
  }

  lemma {:induction false} FirstMaskSource(candidates: seq<Candidate>, key: ResultKey) returns (k: nat)
    requires FirstMask(candidates, key).Some?
    ensures k < |candidates| && (candidates[k].turn, candidates[k].request) == key
    ensures candidates[k].bytes == FirstMask(candidates, key).value
  {
    if (candidates[0].turn, candidates[0].request) == key {
      k := 0;
    } else {
      k := FirstMaskSource(candidates[1..], key);
      k := k + 1;
    }
  }

  lemma {:induction false} FirstMaskExists(candidates: seq<Candidate>, k: nat)
    requires k < |candidates|
    ensures FirstMask(candidates, (candidates[k].turn, candidates[k].request)).Some?
  {
    if k > 0 {
      FirstMaskExists(candidates[1..], k - 1);
    }
  }

  /** The mask map after appending masks: old masks win, then the first new one. */
  lemma {:induction false} MasksAfter(log: seq<Event>, candidates: seq<Candidate>, turn: Id, key: ResultKey)
    ensures
      var before, after := MasksOf(log), MasksOf(log + MaskEvents(candidates, turn));
      var first := FirstMask(candidates, key);
      && (key in after <==> key in before || first.Some?)
      && (key in before ==> after[key] == before[key])
      && (key !in before && first.Some? ==> after[key] == first.value)
    decreases |candidates|
  {
    var events := MaskEvents(candidates, turn);
    if candidates == [] {
      assert log + events == log;
    } else {
      var n := |candidates| - 1;
      MasksAfter(log, candidates[..n], turn, key);
      FirstMaskAppend(candidates[..n], candidates[n], key);
      assert candidates[..n] + [candidates[n]] == candidates;
      assert (log + events)[..|log| + n] == log + MaskEvents(candidates[..n], turn);
      assert (log + events)[|log| + n] == events[n];
    }
  }

  // ---- What masking saves ----

  /** What an event saves when a mask for each candidate is appended: its tokens minus the first mask's marker. */
  function SavedBy(e: Event, masks: MaskMap, candidates: seq<Candidate>): int {
    if e.ToolFinished? && ResultKeyOf(e) !in masks && FirstMask(candidates, ResultKeyOf(e)).Some?
    then EventTokens(e) - TextTokens(MaskMarker(FirstMask(candidates, ResultKeyOf(e)).value))
    else 0
  }

  /** What the events from index `i` on save. */
  function SavedFrom(log: seq<Event>, masks: MaskMap, candidates: seq<Candidate>, i: nat): int
    requires i <= |log|
    decreases |log| - i
  {
    if i == |log| then 0 else SavedBy(log[i], masks, candidates) + SavedFrom(log, masks, candidates, i + 1)
  }

  /** Appending masks changes the tokens of the log, from any point on, by what is saved from there on. */
  lemma {:induction false} TokensDrop(log: seq<Event>, candidates: seq<Candidate>, turn: Id, i: nat)
    requires i <= |log|
    ensures TokensFrom(log, MasksOf(log), i) ==
      TokensFrom(log, MasksOf(log + MaskEvents(candidates, turn)), i) + SavedFrom(log, MasksOf(log), candidates, i)
    decreases |log| - i
  {
    hide MasksOf, MaskMarker, MaskEvents, FirstMask;
    if i < |log| {
      TokensDrop(log, candidates, turn, i + 1);
      if log[i].ToolFinished? {
        MasksAfter(log, candidates, turn, ResultKeyOf(log[i]));
      }
    }
  }

  /**
  For every log and every list of candidates, the estimate falls by exactly what
  the newly masked results save, each its own tokens minus the marker of the
  first mask with its key.
  */
  lemma MaskingSaves(log: seq<Event>, candidates: seq<Candidate>, turn: Id)
    ensures EstimateEvents(log) ==
      EstimateEvents(log + MaskEvents(candidates, turn)) + SavedFrom(log, MasksOf(log), candidates, 0)
  {
    hide MasksOf, SavedFrom, MaskMarker;
    TokensDrop(log, candidates, turn, 0);
    var masks := MaskEvents(candidates, turn);
    TokensWithQuiet(log, masks, MasksOf(log + masks), 0);
  }

  // ---- When the savings are the candidates' own ----

  ghost predicate CandidateInLog(log: seq<Event>, p: Pass, i: nat)
    requires i < |log|
  {
    var s := FoldStart(log);
    s <= i && |p.events| == |log| - s && IsCandidate(p, i - s)
  }

  predicate BothFinished(a: Event, b: Event) {
    a.ToolFinished? && b.ToolFinished?
  }

  /** No candidate's key is borne by another result of the log. */
  ghost predicate KeysUnshared(log: seq<Event>, p: Pass) {
    forall i, j ::
      (0 <= i < |log| && 0 <= j < |log| && i != j && CandidateInLog(log, p, i) && BothFinished(log[i], log[j])) ==>
        ResultKeyOf(log[i]) != ResultKeyOf(log[j])
  }

  /** What an event saves beyond its own net tokens as a candidate. */
  ghost function SurplusAt(log: seq<Event>, p: Pass, i: nat): int
    requires i < |log|
  {
    SavedBy(log[i], p.masks, CandidatesFrom(p, 0))
    - if CandidateInLog(log, p, i) then NetTokens(p.events[i - FoldStart(log)].result.value) else 0
  }

  ghost function SurplusFrom(log: seq<Event>, p: Pass, i: nat): int
    requires i <= |log|
    decreases |log| - i
  {
    if i == |log| then 0 else SurplusAt(log, p, i) + SurplusFrom(log, p, i + 1)
  }

  /** Candidates at or after position `i` of the log. */
  ghost function CandidatesAfter(log: seq<Event>, p: Pass, i: nat): seq<Candidate>
    requires i <= |log| && p.events == log[FoldStart(log)..]
  {
    CandidatesFrom(p, if i <= FoldStart(log) then 0 else i - FoldStart(log))
  }

  lemma NoCandidatesLeft(p: Pass)
    ensures NetSum(CandidatesFrom(p, |p.events|)) == 0
  {
  }

  lemma NetSumStep(p: Pass, i: nat)
    requires i < |p.events|
    ensures NetSum(CandidatesFrom(p, i)) ==
      (if IsCandidate(p, i) then NetTokens(p.events[i].result.value) else 0) + NetSum(CandidatesFrom(p, i + 1))
  {
    hide Protected, NetTokens;
    var rest := CandidatesFrom(p, i + 1);
    if IsCandidate(p, i) {
      assert CandidatesFrom(p, i) == [CandidateAt(p, i)] + rest;
      assert ([CandidateAt(p, i)] + rest)[1..] == rest;
    } else {
      assert CandidatesFrom(p, i) == [] + rest == rest;
    }
  }

  /** What the events save is what their candidates promise, plus the surplus. */
  lemma {:induction false} SavedIsNetAndSurplus(log: seq<Event>, p: Pass, i: nat)
    requires i <= |log| && p.events == log[FoldStart(log)..]
    ensures SavedFrom(log, p.masks, CandidatesFrom(p, 0), i) ==
      NetSum(CandidatesAfter(log, p, i)) + SurplusFrom(log, p, i)
    decreases |log| - i
  {
    hide FoldStart, SavedBy, CandidatesFrom, IsCandidate, NetSum;
    var s := FoldStart(log);
    if i == |log| {
      NoCandidatesLeft(p);
    } else {
      SavedIsNetAndSurplus(log, p, i + 1);
      if s <= i {
        NetSumStep(p, i - s);
      }
    }
  }

  /** The first mask of a key is that of a candidate in the log. */
  lemma FirstMaskInLog(log: seq<Event>, p: Pass, key: ResultKey) returns (i: nat)
    requires p.events == log[FoldStart(log)..] && FirstMask(CandidatesFrom(p, 0), key).Some?
    ensures i < |log| && CandidateInLog(log, p, i) && log[i].ToolFinished? && log[i].result.Some?
    ensures ResultKeyOf(log[i]) == key && FirstMask(CandidatesFrom(p, 0), key) == Some(|log[i].result.value|)
  {
    var s, candidates := FoldStart(log), CandidatesFrom(p, 0);
    hide FoldStart, MaskMarker, Protected, FirstMask, CandidatesFrom, NetTokens;
    var k := FirstMaskSource(candidates, key);
    var j := CandidateSource(p, 0, candidates[k]);
    i := s + j;
    assert p.events[j] == log[i];
  }

  lemma CandidateHasMask(log: seq<Event>, p: Pass, i: nat)
    requires i < |log| && p.events == log[FoldStart(log)..] && CandidateInLog(log, p, i)
    ensures Eligible(p, log[i]) && NetTokens(log[i].result.value) > 0
    ensures FirstMask(CandidatesFrom(p, 0), ResultKeyOf(log[i])).Some?
  {
    var s, candidates := FoldStart(log), CandidatesFrom(p, 0);
    hide FoldStart, MaskMarker, Protected, FirstMask, CandidatesFrom, NetTokens;
    assert log[i] == p.events[i - s];
    CandidatesInclude(p, 0, i - s);
    var n :| 0 <= n < |candidates| && candidates[n] == CandidateAt(p, i - s);
    FirstMaskExists(candidates, n);
  }

  /** With unshared keys a result gets a first mask exactly when it is a candidate, and then its own. */
  lemma FirstMaskIsOwn(log: seq<Event>, p: Pass, i: nat)
    requires i < |log| && p.events == log[FoldStart(log)..] && KeysUnshared(log, p) && log[i].ToolFinished?
    ensures
      var first := FirstMask(CandidatesFrom(p, 0), ResultKeyOf(log[i]));
      && (first.Some? <==> CandidateInLog(log, p, i))
      && (first.Some? ==> Eligible(p, log[i]) && first.value == |log[i].result.value|)
  {
    hide FoldStart, Protected, FirstMask, CandidatesFrom, NetTokens, CandidateInLog;
    if CandidateInLog(log, p, i) {
      CandidateHasMask(log, p, i);
    }
    if FirstMask(CandidatesFrom(p, 0), ResultKeyOf(log[i])).Some? {
      var j := FirstMaskInLog(log, p, ResultKeyOf(log[i]));
    }
  }

  /** With unshared keys a candidate saves its own net tokens and nothing else saves anything. */
  lemma NoSurplus(log: seq<Event>, p: Pass, i: nat)
    requires i < |log| && p.events == log[FoldStart(log)..] && KeysUnshared(log, p)
    ensures SurplusAt(log, p, i) == 0
  {
    var s := FoldStart(log);
    hide FoldStart, MaskMarker, Protected, FirstMask, CandidatesFrom, KeysUnshared;
    if CandidateInLog(log, p, i) {
      assert log[i] == p.events[i - s];
    }
    if log[i].ToolFinished? {
      FirstMaskIsOwn(log, p, i);
    }
  }

  lemma {:induction false} NoSurplusFrom(log: seq<Event>, p: Pass, i: nat)
    requires i <= |log| && p.events == log[FoldStart(log)..] && KeysUnshared(log, p)
    ensures SurplusFrom(log, p, i) == 0
    decreases |log| - i
  {
    hide SurplusAt, KeysUnshared, FoldStart;
    if i < |log| {
      NoSurplus(log, p, i);
      NoSurplusFrom(log, p, i + 1);
    }
  }

  /** With unshared keys, exactly the candidates' events become masked, each with its own size. */
  lemma MaskedExactly(log: seq<Event>, current: Id, protect: nat, turn: Id, i: nat)
    requires KeysUnshared(log, PassFor(log, current, protect)) && i < |log| && log[i].ToolFinished?
    ensures
      var p := PassFor(log, current, protect);
      var before, after := MasksOf(log), MasksOf(log + MaskEvents(CandidatesFrom(p, 0), turn));
      var key := ResultKeyOf(log[i]);
      if CandidateInLog(log, p, i) then key !in before && key in after && after[key] == |log[i].result.value|
      else (key in after <==> key in before) && (key in before ==> after[key] == before[key])
  {
    var p := PassFor(log, current, protect);
    hide MasksOf, FoldStart, Protected, NetTokens, MaskEvents, FirstMask, CandidatesFrom, KeysUnshared, CandidateInLog;
    MasksAfter(log, CandidatesFrom(p, 0), turn, ResultKeyOf(log[i]));
    FirstMaskIsOwn(log, p, i);
  }

  /**
  When masking is exact: appending a mask for every candidate lowers the estimate
  of the log by the sum of their savings if and only if the surplus is zero, and
  it is zero when no candidate's key is borne by another result.
  */
  lemma MaskingIsExact(log: seq<Event>, current: Id, protect: nat, turn: Id)
    ensures
      var p := PassFor(log, current, protect);
      var candidates := CandidatesFrom(p, 0);
      var before, after := EstimateEvents(log), EstimateEvents(log + MaskEvents(candidates, turn));
      && before == after + NetSum(candidates) + SurplusFrom(log, p, 0)
      && (before == after + NetSum(candidates) <==> SurplusFrom(log, p, 0) == 0)
      && (KeysUnshared(log, p) ==> before == after + NetSum(candidates))
  {
    var p := PassFor(log, current, protect);
    hide EstimateEvents, MaskEvents, FoldStart, SavedFrom, SurplusFrom, NetSum, KeysUnshared, CandidatesFrom;
    MaskingSaves(log, CandidatesFrom(p, 0), turn);
    SavedIsNetAndSurplus(log, p, 0);
    if KeysUnshared(log, p) {
      NoSurplusFrom(log, p, 0);
    }
  }

  // ---- Which results are candidates ----

  /** A kept result of an earlier turn that finished since the last fold, named by no mask of the log. */
  ghost predicate Maskable(log: seq<Event>, current: Id, i: nat)
    requires i < |log|
  {
    && FoldStart(log) <= i && log[i].ToolFinished? && log[i].result.Some? && log[i].turn != current
    && (exists k :: FoldStart(log) <= k < |log| && log[k].TurnFinished? && log[k].turn == log[i].turn)
    && (forall k :: 0 <= k < |log| ==> !MasksKey(log[k], (log[i].turn, log[i].request)))
  }

  /** Tokens of all maskable results from index `i` on. */
  ghost function MaskableTokens(log: seq<Event>, current: Id, i: nat): nat
    requires i <= |log|
    decreases |log| - i
  {
    if i == |log| then 0
    else
      (if Maskable(log, current, i) then TextTokens(log[i].result.value) else 0) + MaskableTokens(log, current, i + 1)
  }

  lemma EligibleIsMaskable(log: seq<Event>, current: Id, protect: nat, i: nat)
    requires FoldStart(log) <= i < |log|
    ensures Eligible(PassFor(log, current, protect), log[i]) <==> Maskable(log, current, i)
  {
    var p, s := PassFor(log, current, protect), FoldStart(log);
    if log[i].ToolFinished? {
      MasksOfExactly(log, (log[i].turn, log[i].request));
      hide MasksOf, FoldStart;
      if k :| s <= k < |log| && log[k].TurnFinished? && log[k].turn == log[i].turn {
        assert p.events[k - s] == log[k];
      }
      if k :| 0 <= k < |p.events| && p.events[k].TurnFinished? && p.events[k].turn == log[i].turn {
        assert log[s + k] == p.events[k];
      }
    }
  }

  /** Protection ends where the newer maskable results reach the limit. */
  lemma {:induction false} ProtectedExactly(log: seq<Event>, current: Id, protect: nat, i: nat)
    requires FoldStart(log) <= i <= |log|
    ensures
      var before := Protected(PassFor(log, current, protect), i - FoldStart(log));
      var sum := MaskableTokens(log, current, i);
      (before >= protect <==> Saturate(sum) >= protect) && (before < protect ==> before == Saturate(sum))
    decreases |log| - i
  {
    hide FoldStart, MasksOf, TextTokens, Eligible, Maskable;
    if i < |log| {
      ProtectedExactly(log, current, protect, i + 1);
      EligibleIsMaskable(log, current, protect, i);
      assert PassFor(log, current, protect).events[i - FoldStart(log)] == log[i];
      assert Eligible(PassFor(log, current, protect), log[i]) ==> log[i].ToolFinished? && log[i].result.Some? by {
        IsResult(PassFor(log, current, protect), log[i]);
      }
    }
  }

  lemma IsResult(p: Pass, e: Event)
    ensures Eligible(p, e) ==> e.ToolFinished? && e.result.Some?
  {
  }

  /**
  A result is a candidate exactly when it is maskable, the maskable results after
  it already fill the protected amount, and it costs more than its marker.
  */
  lemma CandidateExactly(log: seq<Event>, current: Id, protect: nat, i: nat)
    requires protect <= U64_MAX && i < |log|
    ensures CandidateInLog(log, PassFor(log, current, protect), i) <==>
      && Maskable(log, current, i) && MaskableTokens(log, current, i + 1) >= protect
      && TextTokens(log[i].result.value) > TextTokens(MaskMarker(|log[i].result.value|))
  {
    hide FoldStart, MasksOf, TextTokens, MaskMarker;
    if FoldStart(log) <= i {
      var p := PassFor(log, current, protect);
      ProtectedExactly(log, current, protect, i + 1);
      EligibleIsMaskable(log, current, protect, i);
      assert p.events[i - FoldStart(log)] == log[i];
    }
  }

  /** `candidates` lists the candidates of the log from position `i` on, which stand at `at`, oldest first. */
  ghost predicate Lists(log: seq<Event>, p: Pass, i: nat, candidates: seq<Candidate>, at: seq<nat>) {
    && |at| == |candidates|
    && (forall a, b :: 0 <= a < b < |at| ==> at[a] < at[b])
    && (forall k :: 0 <= k < |at| ==>
          && i <= at[k] < |log| && CandidateInLog(log, p, at[k])
          && log[at[k]].ToolFinished? && log[at[k]].result.Some?
          && candidates[k] == CandidateOf(log[at[k]]))
    && (forall j :: i <= j < |log| && CandidateInLog(log, p, j) ==> j in at)
  }

  ghost function CandidateOf(e: Event): Candidate
    requires e.ToolFinished? && e.result.Some?
  {
    Candidate(e.turn, e.request, |e.result.value|, NetTokens(e.result.value))
  }

  /** A position that is no candidate is skipped. */
  lemma ListSkips(log: seq<Event>, p: Pass, i: nat, rest: seq<Candidate>, at: seq<nat>)
    requires i < |log| && Lists(log, p, i + 1, rest, at) && !CandidateInLog(log, p, i)
    ensures Lists(log, p, i, rest, at)
  {
    hide CandidateInLog, NetTokens, CandidateOf;
  }

  /** A candidate is put in front. */
  lemma ListAdds(log: seq<Event>, p: Pass, i: nat, rest: seq<Candidate>, at: seq<nat>)
    requires i < |log| && Lists(log, p, i + 1, rest, at)
    requires CandidateInLog(log, p, i) && log[i].ToolFinished? && log[i].result.Some?
    ensures Lists(log, p, i, [CandidateOf(log[i])] + rest, [i] + at)
  {
    hide CandidateInLog, NetTokens, CandidateOf;
    var all, candidates := [i] + at, [CandidateOf(log[i])] + rest;
    forall k | 0 < k < |all| ensures all[k] == at[k - 1] && candidates[k] == rest[k - 1] {}
    forall a, b | 0 <= a < b < |all| ensures all[a] < all[b] {
      if a > 0 { assert at[a - 1] < at[b - 1]; } else { assert at[b - 1] >= i + 1; }
    }
    forall j | i <= j < |log| && CandidateInLog(log, p, j) ensures j in all {
      if j > i { assert j in at; }
    }
  }

  lemma {:induction false} CandidatesAreListed(log: seq<Event>, p: Pass, i: nat) returns (at: seq<nat>)
    requires FoldStart(log) <= i <= |log| && p.events == log[FoldStart(log)..]
    ensures Lists(log, p, i, CandidatesFrom(p, i - FoldStart(log)), at)
    decreases |log| - i
  {
    hide FoldStart, NetTokens, Protected, Lists;
    var from := i - FoldStart(log);
    if i == |log| {
      at := [];
      assert Lists(log, p, i, [], at) by { ListNothing(log, p); }
    } else {
      at := CandidatesAreListed(log, p, i + 1);
      assert p.events[from] == log[i];
      var rest := CandidatesFrom(p, from + 1);
      if CandidateInLog(log, p, i) {
        ListAdds(log, p, i, rest, at);
        at := [i] + at;
        assert CandidatesFrom(p, from) == [CandidateOf(log[i])] + rest;
      } else {
        ListSkips(log, p, i, rest, at);
        assert CandidatesFrom(p, from) == [] + rest == rest;
      }
    }
  }

  lemma ListNothing(log: seq<Event>, p: Pass)
    ensures Lists(log, p, |log|, [], [])
  {
  }

  /** What a selection pass returns: every candidate of the log, oldest first, with its size and its savings. */
  lemma SelectionExactly(log: seq<Event>, current: Id, protect: nat)
    ensures
      var p := PassFor(log, current, protect);
      exists at :: Lists(log, p, 0, CandidatesFrom(p, 0), at)
  {
    var p := PassFor(log, current, protect);
    var at := CandidatesAreListed(log, p, FoldStart(log));
    hide FoldStart, NetTokens, Protected, CandidatesFrom;
    assert Lists(log, p, 0, CandidatesFrom(p, 0), at);
  }

  // ---- Where exactness fails ----

  /** A finished turn with two results under one key. */
  function SharedKeyLog(turn: Id, request: Id, older: string, newer: string): seq<Event> {
    [ToolFinished(turn, request, Some(older)), ToolFinished(turn, request, Some(newer)), TurnFinished(turn, Completed)]
  }

  lemma SharedKeyCandidates(turn: Id, request: Id, older: string, newer: string, current: Id, protect: nat)
    requires current != turn && 0 < protect <= Saturate(TextTokens(newer)) && NetTokens(older) > 0
    ensures
      var p := PassFor(SharedKeyLog(turn, request, older, newer), current, protect);
      && p.masks == map[]
      && CandidatesFrom(p, 0) == [Candidate(turn, request, |older|, NetTokens(older))]
  {
    hide MaskMarker, TextTokens, NetTokens;
    var log := SharedKeyLog(turn, request, older, newer);
    assert NewestCheckpointIndex(log, 3).None?;
    assert log[FoldStart(log)..] == log;
    var p := PassFor(log, current, protect);
    NoMasksWithoutEvents(log);
    assert log[2].turn in FinishedIn(log);
    assert Protected(p, 3) == Protected(p, 2) == 0 && Protected(p, 1) == Saturate(TextTokens(newer));
    assert CandidatesFrom(p, 3) == [];
    assert CandidatesFrom(p, 2) == [];
    assert CandidatesFrom(p, 1) == [];
  }

  lemma {:induction false} NoMasksWithoutEvents(events: seq<Event>)
    requires forall e <- events :: !e.Masked?
    ensures MasksOf(events) == map[]
  {
    MasksOfAppend([], events);
    assert [] + events == events;
  }

  /**
  The older of two results under one key is the only candidate, yet its mask hits
  both: the estimate falls by its savings and also by what the newer one saves.
  */
  lemma SharedKeyMasksBoth(turn: Id, request: Id, older: string, newer: string, current: Id, protect: nat, maskTurn: Id)
    requires current != turn && 0 < protect <= Saturate(TextTokens(newer)) && NetTokens(older) > 0
    ensures
      var log := SharedKeyLog(turn, request, older, newer);
      var candidates := CandidatesFrom(PassFor(log, current, protect), 0);
      EstimateEvents(log) == EstimateEvents(log + MaskEvents(candidates, maskTurn)) + NetSum(candidates)
        + TextTokens(newer) - TextTokens(MaskMarker(|older|))
  {
    hide MaskMarker, TextTokens, EstimateEvents, MaskEvents;
    SharedKeyCandidates(turn, request, older, newer, current, protect);
    var log := SharedKeyLog(turn, request, older, newer);
    var candidates := [Candidate(turn, request, |older|, NetTokens(older))];
    MaskingSaves(log, candidates, maskTurn);
    assert FirstMask(candidates, (turn, request)) == Some(|older|);
    assert SavedFrom(log, map[], candidates, 2) == 0;
    assert SavedFrom(log, map[], candidates, 1) == TextTokens(newer) - TextTokens(MaskMarker(|older|));
    assert NetSum(candidates) == NetTokens(older) + NetSum(candidates[1..]) == NetTokens(older);
  }

  /** Two results of 400 bytes under one key: the estimate falls by twice what was promised. */
  lemma SharedKeyIsInexact()
    ensures
      var text := seq(400, _ => 'x');
      var log := SharedKeyLog("t", "r", text, text);
      var candidates := CandidatesFrom(PassFor(log, "now", 1), 0);
      && EstimateEvents(log) == EstimateEvents(log + MaskEvents(candidates, "now")) + 2 * NetSum(candidates)
      && NetSum(candidates) > 0
  {
    hide EstimateEvents, MaskEvents;
    var text := seq(400, _ => 'x');
    assert |text| == 400;
    assert Decimal(4) == "4" && Decimal(40) == "40" && Decimal(400) == "400";
    var candidate := Candidate("t", "r", 400, NetTokens(text));
    SharedKeyCandidates("t", "r", text, text, "now", 1);
    SharedKeyMasksBoth("t", "r", text, text, "now", 1, "now");
    assert NetSum([candidate]) == NetTokens(text) + NetSum([candidate][1..]) == NetTokens(text);
  }

  // ---- Selecting again ----

  /** Two passes over the same events, the second knowing more masks and seeing mask events at its end. */
  ghost predicate Resumes(p: Pass, q: Pass) {
    && p.events <= q.events && q.finished == p.finished && q.current == p.current && q.protect == p.protect
    && (forall i :: |p.events| <= i < |q.events| ==> q.events[i].Masked?)
    && p.masks.Keys <= q.masks.Keys
    && (forall i :: 0 <= i < |p.events| && IsCandidate(p, i) ==>
          (p.events[i].turn, p.events[i].request) in q.masks)
  }

  lemma {:induction false} NothingAmongMasks(q: Pass, i: nat)
    requires i <= |q.events| && forall j :: i <= j < |q.events| ==> q.events[j].Masked?
    ensures Protected(q, i) == 0 && CandidatesFrom(q, i) == []
    decreases |q.events| - i
  {
    if i < |q.events| {
      NothingAmongMasks(q, i + 1);
    }
  }

  /** The second pass reaches its protection limit no sooner, so it finds nothing new. */
  lemma {:induction false} SecondPassIsEmpty(p: Pass, q: Pass, i: nat)
    requires Resumes(p, q) && i <= |p.events|
    ensures CandidatesFrom(q, i) == []
    ensures Protected(q, i) <= Protected(p, i) || p.protect <= Protected(p, i)
    decreases |p.events| - i
  {
    hide MaskMarker;
    if i == |p.events| {
      NothingAmongMasks(q, i);
    } else {
      SecondPassIsEmpty(p, q, i + 1);
      assert q.events[i] == p.events[i];
      assert Eligible(q, q.events[i]) ==> Eligible(p, p.events[i]);
    }
  }

  lemma FinishedWithMasks(events: seq<Event>, masks: seq<Event>)
    requires forall e <- masks :: e.Masked?
    ensures FinishedIn(events + masks) == FinishedIn(events)
  {
    var all := events + masks;
    assert forall i :: 0 <= i < |events| ==> all[i] == events[i];
    assert forall i :: |events| <= i < |all| ==> all[i] in masks;
  }

  lemma FoldStartWithMasks(log: seq<Event>, masks: seq<Event>)
    requires forall e <- masks :: e.Masked?
    ensures FoldStart(log + masks) == FoldStart(log)
    ensures (log + masks)[FoldStart(log)..] == log[FoldStart(log)..] + masks
  {
    assert KeepsBoundary(log, masks);
    CheckpointSurvivesAppend(log, masks);
    hide NewestCheckpoint;
  }

  lemma PassResumes(log: seq<Event>, current: Id, protect: nat, turn: Id)
    ensures
      var p := PassFor(log, current, protect);
      Resumes(p, PassFor(log + MaskEvents(CandidatesFrom(p, 0), turn), current, protect))
  {
    hide FoldStart, MasksOf, Protected, NetTokens;
    var p := PassFor(log, current, protect);
    var candidates := CandidatesFrom(p, 0);
    var masks := MaskEvents(candidates, turn);
    assert forall e <- masks :: e.Masked?;
    FoldStartWithMasks(log, masks);
    var q := PassFor(log + masks, current, protect);
    FinishedWithMasks(p.events, masks);
    assert q.events == p.events + masks && q.finished == FinishedIn(q.events) && p.finished == FinishedIn(p.events);
    forall key | key in p.masks ensures key in q.masks {
      MasksAfter(log, candidates, turn, key);
    }
    forall i | 0 <= i < |p.events| && IsCandidate(p, i) ensures (p.events[i].turn, p.events[i].request) in q.masks {
      CandidateMasked(log, p, candidates, turn, i);
    }
  }

  lemma CandidateMasked(log: seq<Event>, p: Pass, candidates: seq<Candidate>, turn: Id, i: nat)
    requires i < |p.events| && IsCandidate(p, i) && candidates == CandidatesFrom(p, 0)
    ensures (p.events[i].turn, p.events[i].request) in MasksOf(log + MaskEvents(candidates, turn))
  {
    hide MasksOf, Protected, NetTokens, MaskEvents, FirstMask;
    var e := p.events[i];
    MasksAfter(log, candidates, turn, (e.turn, e.request));
    CandidatesInclude(p, 0, i);
    var k :| 0 <= k < |candidates| && candidates[k] == CandidateAt(p, i);
    FirstMaskExists(candidates, k);
  }

  /** Masking is idempotent: selecting again with the same arguments finds nothing, whatever the keys. */
  lemma MaskingIsIdempotent(log: seq<Event>, current: Id, protect: nat, turn: Id)
    ensures
      var all := log + MaskEvents(CandidatesFrom(PassFor(log, current, protect), 0), turn);
      CandidatesFrom(PassFor(all, current, protect), 0) == []
  {
    hide PassFor, CandidatesFrom, MaskEvents, Resumes;
    var p := PassFor(log, current, protect);
    PassResumes(log, current, protect, turn);
    SecondPassIsEmpty(p, PassFor(log + MaskEvents(CandidatesFrom(p, 0), turn), current, protect), 0);
  }
}
