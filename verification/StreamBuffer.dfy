/** The bounded provider stream buffer (provider.rs): a queue that merges and, under pressure, drops text deltas. */
module StreamBuffer {
  import opened Results

  datatype StreamEvent =
    | Started(turn: string)
    | TextDelta(turn: string, delta: string)
    | ToolCallStarted(turn: string, callId: string, name: string)
    | ToolCallDelta(turn: string, callId: string, argumentsDelta: string)
    | ResponseOutput(turn: string, items: string)
    | ToolCallCompleted(turn: string, toolCall: string)
    | Completed(turn: string, detail: string)
    | Failed(turn: string, error: string)
    | Cancelled(turn: string, reason: string)

  predicate IsLifecycleBoundary(e: StreamEvent) {
    !e.TextDelta? && !e.ToolCallDelta?
  }

  function BackpressureFailure(turn: string): StreamEvent {
    Failed(turn, "backpressure")
  }

  function FirstText(events: seq<StreamEvent>, i: nat): (r: Option<nat>)
    requires i <= |events|
    ensures r.Some? ==> i <= r.value < |events| && events[r.value].TextDelta?
    ensures r.Some? ==> forall j :: i <= j < r.value ==> !events[j].TextDelta?
    ensures r.None? ==> forall j :: i <= j < |events| ==> !events[j].TextDelta?
    decreases |events| - i
  {
    if i == |events| then None else if events[i].TextDelta? then Some(i) else FirstText(events, i + 1)
  }

  function Without(events: seq<StreamEvent>, i: nat): seq<StreamEvent>
    requires i < |events|
  {
    events[..i] + events[i + 1..]
  }

  predicate CanCoalesce(events: seq<StreamEvent>, e: StreamEvent) {
    && e.TextDelta? && events != []
    && events[|events| - 1].TextDelta? && events[|events| - 1].turn == e.turn
  }

  function Coalesce(events: seq<StreamEvent>, e: StreamEvent): seq<StreamEvent>
    requires CanCoalesce(events, e)
  {
    var last := events[|events| - 1];
    events[..|events| - 1] + [TextDelta(last.turn, last.delta + e.delta)]
  }

  /** What a push does to a full or a free buffer. */
  datatype Effect = Appended | Merged | Evicted(index: nat) | Rejected

  function PushEffect(capacity: nat, events: seq<StreamEvent>, e: StreamEvent): (r: Effect)
    ensures r.Merged? ==> CanCoalesce(events, e)
    ensures r.Evicted? ==> r.index < |events| && events[r.index].TextDelta?
  {
    if capacity == 0 then Rejected
    else if |events| < capacity then Appended
    else if CanCoalesce(events, e) then Merged
    else if IsLifecycleBoundary(e) && FirstText(events, 0).Some? then Evicted(FirstText(events, 0).value)
    else Rejected
  }

  function AfterPush(events: seq<StreamEvent>, e: StreamEvent, effect: Effect): seq<StreamEvent>
    requires effect.Merged? ==> CanCoalesce(events, e)
    requires effect.Evicted? ==> effect.index < |events|
  {
    match effect
    case Appended => events + [e]
    case Merged => Coalesce(events, e)
    case Evicted(i) => Without(events, i) + [e]
    case Rejected => events
  }

  /**
  Nothing can make room for the event: no capacity, or a full buffer whose last
  event the event does not continue and that either holds no text to give up or
  would give it up for a mere delta.
  */
  ghost predicate MustReject(capacity: nat, events: seq<StreamEvent>, e: StreamEvent) {
    || capacity == 0
    || (&& |events| >= capacity
        && !Continues(events, e)
        && (e.TextDelta? || e.ToolCallDelta? || forall i :: 0 <= i < |events| ==> !events[i].TextDelta?))
  }

  /** A text delta right after one of its own turn. */
  ghost predicate Continues(events: seq<StreamEvent>, e: StreamEvent) {
    e.TextDelta? && exists turn, delta ::
      events != [] && events[|events| - 1] == TextDelta(turn, delta) && e == TextDelta(turn, e.delta)
  }

  class BoundedBuffer {
    const capacity: nat
    var events: seq<StreamEvent>

    constructor (capacity: nat)
      ensures this.capacity == capacity && events == []
    {
      this.capacity := capacity;
      events := [];
    }

    method Push(e: StreamEvent) returns (r: Result<(), StreamEvent>)
      modifies this`events
      ensures
        var effect := PushEffect(capacity, old(events), e);
        && events == AfterPush(old(events), e, effect)
        && r == if effect.Rejected? then Err(BackpressureFailure(e.turn)) else Ok(())
      ensures r.Err? <==> MustReject(capacity, old(events), e)
      ensures r.Err? ==> r.error == Failed(e.turn, "backpressure") && events == old(events)
      ensures events == Step(capacity, History(old(events), [], [], []), Op.Push(e)).buffered
    {
      StepExactly(capacity, History(events, [], [], []), Op.Push(e));
      if capacity == 0 {
        return Err(BackpressureFailure(e.turn));
      }
      if |events| < capacity {
        events := events + [e];
        return Ok(());
      }
      var merged := CoalesceTextDelta(e);
      if merged {
        return Ok(());
      }
      if IsLifecycleBoundary(e) {
        var dropped := DropOldestTextDelta();
        if dropped {
          events := events + [e];
          return Ok(());
        }
      }
      return Err(BackpressureFailure(e.turn));
    }

    method PopFront() returns (r: Option<StreamEvent>)
      modifies this`events
      ensures old(events) == [] ==> r == None && events == []
      ensures old(events) != [] ==> r == Some(old(events)[0]) && events == old(events)[1..]
      ensures events == Step(capacity, History(old(events), [], [], []), Pop).buffered
    {
      if events == [] {
        return None;
      }
      r := Some(events[0]);
      events := events[1..];
    }

    method CoalesceTextDelta(e: StreamEvent) returns (merged: bool)
      modifies this`events
      ensures merged == CanCoalesce(old(events), e)
      ensures events == if merged then Coalesce(old(events), e) else old(events)
    {
      if !e.TextDelta? || events == [] || !events[|events| - 1].TextDelta? || events[|events| - 1].turn != e.turn {
        return false;
      }
      var last := events[|events| - 1];
      events := events[|events| - 1 := TextDelta(last.turn, last.delta + e.delta)];
      return true;
    }

    method DropOldestTextDelta() returns (dropped: bool)
      modifies this`events
      ensures dropped == FirstText(old(events), 0).Some?
      ensures events == if dropped then Without(old(events), FirstText(old(events), 0).value) else old(events)
    {
      var index := FirstText(events, 0);
      if index.None? {
        return false;
      }
      events := Without(events, index.value);
      return true;
    }
  }

  // ---- Runs ----

  datatype Op = Push(event: StreamEvent) | Pop

  /** A run so far: what is buffered, what was popped, and the events accepted and evicted. */
  datatype History = History(buffered: seq<StreamEvent>, popped: seq<StreamEvent>,
                             accepted: seq<StreamEvent>, evicted: seq<StreamEvent>)

  function Step(capacity: nat, h: History, op: Op): History {
    match op
    case Pop =>
      if h.buffered == [] then h
      else h.(buffered := h.buffered[1..], popped := h.popped + [h.buffered[0]])
    case Push(e) =>
      var effect := PushEffect(capacity, h.buffered, e);
      History(AfterPush(h.buffered, e, effect), h.popped,
              if effect.Rejected? then h.accepted else h.accepted + [e],
              if effect.Evicted? then h.evicted + [h.buffered[effect.index]] else h.evicted)
  }

  function Run(capacity: nat, ops: seq<Op>): History {
    if ops == [] then History([], [], [], [])
    else Step(capacity, Run(capacity, ops[..|ops| - 1]), ops[|ops| - 1])
  }

  /** Everything that left or will leave the buffer. */
  function Output(h: History): seq<StreamEvent> {
    h.popped + h.buffered
  }

  function NonText(events: seq<StreamEvent>): seq<StreamEvent> {
    if events == [] then []
    else
      var n := |events| - 1;
      NonText(events[..n]) + if events[n].TextDelta? then [] else [events[n]]
  }

  /** `events` with adjacent text deltas of one turn merged. */
  function Normal(events: seq<StreamEvent>): seq<StreamEvent> {
    if events == [] then []
    else Extend(Normal(events[..|events| - 1]), events[|events| - 1])
  }

  function Extend(normal: seq<StreamEvent>, e: StreamEvent): seq<StreamEvent> {
    if CanCoalesce(normal, e) then Coalesce(normal, e) else normal + [e]
  }

  /** A range of accepted events that became one output event. */
  datatype Span = Span(start: nat, end: nat)

  /** `out` is that range, or the merge of its text deltas, all of one turn. */
  ghost predicate Carries(out: StreamEvent, input: seq<StreamEvent>)
    decreases |input|
  {
    && input != []
    && if |input| == 1 then out == input[0]
       else
         var n := |input| - 1;
         && input[n].TextDelta? && out.TextDelta? && input[n].turn == out.turn
         && exists rest :: Carries(TextDelta(out.turn, rest), input[..n]) && out.delta == rest + input[n].delta
  }

  lemma OutputOfPop(capacity: nat, h: History)
    ensures Output(Step(capacity, h, Pop)) == Output(h)
  {
    if h.buffered != [] {
      assert h.buffered == [h.buffered[0]] + h.buffered[1..];
    }
  }

  lemma OutputOfPush(capacity: nat, h: History, e: StreamEvent)
    ensures
      var out, after, p := Output(h), Output(Step(capacity, h, Push(e))), |h.popped|;
      var effect := PushEffect(capacity, h.buffered, e);
      && (effect.Appended? ==> after == out + [e])
      && (effect.Merged? ==> CanCoalesce(out, e) && after == Coalesce(out, e))
      && (effect.Evicted? ==> p + effect.index < |out| && out[p + effect.index].TextDelta?
                              && after == Without(out, p + effect.index) + [e])
      && (effect.Rejected? ==> after == out)
      && Step(capacity, h, Push(e)).accepted == if effect.Rejected? then h.accepted else h.accepted + [e]
  {
    var effect := PushEffect(capacity, h.buffered, e);
    if effect.Merged? {
      assert h.popped + h.buffered[..|h.buffered| - 1] == Output(h)[..|Output(h)| - 1];
    } else if effect.Evicted? {
      var i, p := effect.index, |h.popped|;
      assert Output(h)[..p + i] == h.popped + h.buffered[..i];
      assert Output(h)[p + i + 1..] == h.buffered[i + 1..];
    }
  }

  // ---- Order ----

  lemma NonTextSnoc(events: seq<StreamEvent>, e: StreamEvent)
    ensures NonText(events + [e]) == NonText(events) + if e.TextDelta? then [] else [e]
  {
    assert (events + [e])[..|events|] == events;
  }

  lemma {:induction false} NonTextWithout(events: seq<StreamEvent>, i: nat)
    requires i < |events| && events[i].TextDelta?
    ensures NonText(Without(events, i)) == NonText(events)
    decreases |events|
  {
    var n := |events| - 1;
    if i == n {
      assert Without(events, i) == events[..n];
    } else {
      NonTextWithout(events[..n], i);
      assert Without(events, i) == Without(events[..n], i) + [events[n]];
      NonTextSnoc(Without(events[..n], i), events[n]);
    }
  }

  /** One push or pop keeps: at most `capacity` buffered, non-text in order, merges only until an eviction. */
  ghost predicate Faithful(capacity: nat, h: History) {
    && |h.buffered| <= capacity
    && NonText(Output(h)) == NonText(h.accepted)
    && (h.evicted == [] ==> Normal(Output(h)) == Normal(h.accepted))
    && (forall e <- h.evicted :: e.TextDelta?)
  }

  /** Extending by two deltas of a turn is extending by their merge. */
  lemma ExtendTwice(normal: seq<StreamEvent>, a: StreamEvent, b: StreamEvent)
    requires a.TextDelta? && b.TextDelta? && a.turn == b.turn
    ensures Extend(Extend(normal, a), b) == Extend(normal, TextDelta(a.turn, a.delta + b.delta))
  {
    if CanCoalesce(normal, a) {
      var tail := normal[|normal| - 1];
      assert (tail.delta + a.delta) + b.delta == tail.delta + (a.delta + b.delta);
    }
  }

  lemma CoalesceIsExtend(events: seq<StreamEvent>, e: StreamEvent)
    requires CanCoalesce(events, e)
    ensures Normal(Coalesce(events, e)) == Extend(Normal(events), e)
    ensures NonText(Coalesce(events, e)) == NonText(events)
  {
    hide Normal, NonText, Extend;
    var n := |events| - 1;
    var init, last := events[..n], events[n];
    var merged := TextDelta(last.turn, last.delta + e.delta);
    assert Coalesce(events, e) == init + [merged] && events == init + [last];
    NonTextSnoc(init, merged);
    NonTextSnoc(init, last);
    NormalSnoc(init, merged);
    NormalSnoc(init, last);
    ExtendTwice(Normal(init), last, e);
  }

  lemma PushKeepsOrder(capacity: nat, h: History, e: StreamEvent)
    requires NonText(Output(h)) == NonText(h.accepted)
    ensures var k := Step(capacity, h, Push(e)); NonText(Output(k)) == NonText(k.accepted)
  {
    hide NonText, Coalesce, Output, Step, Without, PushEffect;
    var out, effect := Output(h), PushEffect(capacity, h.buffered, e);
    OutputOfPush(capacity, h, e);
    NonTextSnoc(h.accepted, e);
    if effect.Appended? {
      NonTextSnoc(out, e);
    } else if effect.Merged? {
      CoalesceIsExtend(out, e);
    } else if effect.Evicted? {
      var i := |h.popped| + effect.index;
      NonTextWithout(out, i);
      NonTextSnoc(Without(out, i), e);
    }
  }

  lemma NormalSnoc(events: seq<StreamEvent>, e: StreamEvent)
    ensures Normal(events + [e]) == Extend(Normal(events), e)
  {
    assert (events + [e])[..|events|] == events;
  }

  lemma PushKeepsNormal(capacity: nat, h: History, e: StreamEvent)
    requires Normal(Output(h)) == Normal(h.accepted)
    ensures var k := Step(capacity, h, Push(e));
      PushEffect(capacity, h.buffered, e).Evicted? || Normal(Output(k)) == Normal(k.accepted)
  {
    hide Normal, Extend, Coalesce, Output, Step, Without, PushEffect;
    var out, effect := Output(h), PushEffect(capacity, h.buffered, e);
    OutputOfPush(capacity, h, e);
    NormalSnoc(h.accepted, e);
    if effect.Appended? {
      NormalSnoc(out, e);
    } else if effect.Merged? {
      CoalesceIsExtend(out, e);
    }
  }

  /** `after` is `before` without its oldest text delta, and with `e` at the end. */
  ghost predicate MadeRoom(before: seq<StreamEvent>, after: seq<StreamEvent>, e: StreamEvent, i: nat) {
    && i < |before| && before[i].TextDelta? && (forall j :: 0 <= j < i ==> !before[j].TextDelta?)
    && after == before[..i] + before[i + 1..] + [e]
  }

  /** What each operation does, case by case. */
  lemma StepExactly(capacity: nat, h: History, op: Op)
    ensures
      var k, b := Step(capacity, h, op), h.buffered;
      && (op.Pop? && b == [] ==> k == h)
      && (op.Pop? && b != [] ==> k == History(b[1..], h.popped + [b[0]], h.accepted, h.evicted))
      && (op.Push? ==>
            && (MustReject(capacity, b, op.event) ==> k == h)
            && (!MustReject(capacity, b, op.event) ==> k.accepted == h.accepted + [op.event] && k.popped == h.popped)
            && (0 < capacity && |b| < capacity ==> k.buffered == b + [op.event] && k.evicted == h.evicted)
            && (0 < capacity <= |b| && Continues(b, op.event) ==>
                  && k.buffered == b[..|b| - 1] + [TextDelta(op.event.turn, b[|b| - 1].delta + op.event.delta)]
                  && k.evicted == h.evicted)
            && (capacity <= |b| && !Continues(b, op.event) && !MustReject(capacity, b, op.event) ==>
                  exists i: nat :: MadeRoom(b, k.buffered, op.event, i) && k.evicted == h.evicted + [b[i]]))
  {
    var b := h.buffered;
    if op.Push? {
      assert Continues(b, op.event) <==> CanCoalesce(b, op.event) by {
        if CanCoalesce(b, op.event) {
          var last := b[|b| - 1];
          assert last == TextDelta(last.turn, last.delta) && op.event == TextDelta(last.turn, op.event.delta);
        }
      }
      var text := FirstText(b, 0);
      if text.Some? && PushEffect(capacity, b, op.event).Evicted? {
        assert MadeRoom(b, Step(capacity, h, op).buffered, op.event, text.value);
      }
    }
  }

  /** An eviction takes one text delta, and only to admit a lifecycle event into a full buffer. */
  lemma StepIsFaithful(capacity: nat, h: History, op: Op)
    requires Faithful(capacity, h)
    ensures Faithful(capacity, Step(capacity, h, op))
    ensures |Step(capacity, h, op).evicted| <= |h.evicted| + 1
    ensures |Step(capacity, h, op).evicted| > |h.evicted| ==>
      op.Push? && IsLifecycleBoundary(op.event) && |h.buffered| == capacity
  {
    hide Normal, NonText, Output;
    if op.Pop? {
      OutputOfPop(capacity, h);
    } else {
      PushKeepsOrder(capacity, h, op.event);
      if h.evicted == [] {
        PushKeepsNormal(capacity, h, op.event);
      }
    }
  }

  /**
  Over every run of pushes and pops: the buffer never exceeds its capacity,
  popped plus buffered events hold exactly the accepted non-text events in order,
  only text deltas are ever evicted, and until the first eviction the output is
  the accepted input up to merging adjacent deltas of one turn.
  */
  lemma {:induction false} RunsAreFaithful(capacity: nat, ops: seq<Op>)
    ensures Faithful(capacity, Run(capacity, ops))
    decreases |ops|
  {
    if ops != [] {
      RunsAreFaithful(capacity, ops[..|ops| - 1]);
      StepIsFaithful(capacity, Run(capacity, ops[..|ops| - 1]), ops[|ops| - 1]);
    }
  }

  /**
  Over every run: a push is turned down exactly when nothing can make room for it,
  and then changes nothing; any other push is accepted.
  */
  lemma RunsRejectExactly(capacity: nat, ops: seq<Op>, k: nat)
    requires k < |ops| && ops[k].Push?
    ensures
      var before, after := Run(capacity, ops[..k]), Run(capacity, ops[..k + 1]);
      && |before.buffered| <= capacity
      && (if MustReject(capacity, before.buffered, ops[k].event) then after == before
          else after.accepted == before.accepted + [ops[k].event])
  {
    assert ops[..k + 1][..k] == ops[..k];
    RunsAreFaithful(capacity, ops[..k]);
    StepExactly(capacity, Run(capacity, ops[..k]), ops[k]);
    hide Normal, NonText, Output, Step;
  }

  // ---- Controlled loss ----

  ghost predicate Ordered(spans: seq<Span>, n: nat) {
    && (forall i :: 0 <= i < |spans| ==> spans[i].start < spans[i].end <= n)
    && (forall i, j :: 0 <= i < j < |spans| ==> spans[i].end <= spans[j].start)
  }

  ghost predicate Carried(out: seq<StreamEvent>, accepted: seq<StreamEvent>, spans: seq<Span>)
    requires Ordered(spans, |accepted|)
  {
    && |spans| == |out|
    && forall i :: 0 <= i < |spans| ==> Carries(out[i], accepted[spans[i].start..spans[i].end])
  }

  predicate Holds(span: Span, k: nat) {
    span.start <= k < span.end
  }

  /** Only text deltas lie outside the spans. */
  ghost predicate Covered(accepted: seq<StreamEvent>, spans: seq<Span>) {
    forall k: nat :: k < |accepted| && !accepted[k].TextDelta? ==> exists i :: 0 <= i < |spans| && Holds(spans[i], k)
  }

  /** Where the output comes from: in order, disjoint, each event one span, and only text lost. */
  ghost predicate Traced(out: seq<StreamEvent>, accepted: seq<StreamEvent>, spans: seq<Span>) {
    Ordered(spans, |accepted|) && Carried(out, accepted, spans) && Covered(accepted, spans)
  }

  ghost predicate EndsLast(spans: seq<Span>, n: nat) {
    spans != [] ==> spans[|spans| - 1].end == n
  }

  lemma TracedAppend(out: seq<StreamEvent>, accepted: seq<StreamEvent>, spans: seq<Span>, e: StreamEvent)
    requires Traced(out, accepted, spans)
    ensures Traced(out + [e], accepted + [e], spans + [Span(|accepted|, |accepted| + 1)])
  {
    hide Carries;
    var n, all, more := |accepted|, accepted + [e], spans + [Span(|accepted|, |accepted| + 1)];
    assert all[n..n + 1] == [e];
    assert Carries(e, [e]) by { CarriesOne(e); }
    forall i | 0 <= i < |spans| ensures all[more[i].start..more[i].end] == accepted[spans[i].start..spans[i].end] {}
    forall k: nat | k < |all| && !all[k].TextDelta? ensures exists i :: 0 <= i < |more| && Holds(more[i], k) {
      if k < n {
        var i :| 0 <= i < |spans| && Holds(spans[i], k);
        assert more[i] == spans[i];
      } else {
        assert Holds(more[|spans|], k);
      }
    }
  }

  lemma CarriesOne(e: StreamEvent)
    ensures Carries(e, [e])
  {
  }

  lemma CarriesMore(last: StreamEvent, input: seq<StreamEvent>, e: StreamEvent)
    requires Carries(last, input) && last.TextDelta? && e.TextDelta? && e.turn == last.turn
    ensures Carries(TextDelta(last.turn, last.delta + e.delta), input + [e])
  {
    var all := input + [e];
    assert all[..|all| - 1] == input;
    assert Carries(TextDelta(last.turn, last.delta), input);
  }

  lemma TracedMerge(out: seq<StreamEvent>, accepted: seq<StreamEvent>, spans: seq<Span>, e: StreamEvent)
    requires Traced(out, accepted, spans) && EndsLast(spans, |accepted|) && CanCoalesce(out, e)
    ensures
      var m := |spans| - 1;
      Traced(Coalesce(out, e), accepted + [e], spans[..m] + [Span(spans[m].start, |accepted| + 1)])
  {
    hide Carries;
    var n, m, all := |accepted|, |spans| - 1, accepted + [e];
    var start := spans[m].start;
    var more := spans[..m] + [Span(start, n + 1)];
    assert all[start..n + 1] == accepted[start..n] + [e];
    CarriesMore(out[m], accepted[start..n], e);
    forall i | 0 <= i < m
      ensures more[i] == spans[i] && all[more[i].start..more[i].end] == accepted[spans[i].start..spans[i].end]
    {
    }
    MergeCovers(accepted, spans, e);
    hide Covered;
  }

  lemma MergeCovers(accepted: seq<StreamEvent>, spans: seq<Span>, e: StreamEvent)
    requires spans != [] && spans[|spans| - 1].end == |accepted| && e.TextDelta? && Covered(accepted, spans)
    ensures
      var m := |spans| - 1;
      Covered(accepted + [e], spans[..m] + [Span(spans[m].start, |accepted| + 1)])
  {
    var m, all := |spans| - 1, accepted + [e];
    var more := spans[..m] + [Span(spans[m].start, |accepted| + 1)];
    forall k: nat | k < |all| && !all[k].TextDelta? ensures exists i :: 0 <= i < |more| && Holds(more[i], k) {
      var i :| 0 <= i < |spans| && Holds(spans[i], k);
      if i < m { assert more[i] == spans[i]; } else { assert Holds(more[m], k); }
    }
  }

  lemma TracedDrop(out: seq<StreamEvent>, accepted: seq<StreamEvent>, spans: seq<Span>, d: nat)
    requires Traced(out, accepted, spans) && d < |out| && out[d].TextDelta?
    ensures Traced(Without(out, d), accepted, spans[..d] + spans[d + 1..])
  {
    hide Carries;
    DropCovers(out, accepted, spans, d);
    hide Covered;
    var less := spans[..d] + spans[d + 1..];
    forall i | 0 <= i < |less| ensures less[i] == spans[if i < d then i else i + 1] {}
  }

  lemma DropCovers(out: seq<StreamEvent>, accepted: seq<StreamEvent>, spans: seq<Span>, d: nat)
    requires Traced(out, accepted, spans) && d < |out| && out[d].TextDelta?
    ensures Covered(accepted, spans[..d] + spans[d + 1..])
  {
    hide Carries;
    var less := spans[..d] + spans[d + 1..];
    forall k: nat | k < |accepted| && !accepted[k].TextDelta? ensures exists i :: 0 <= i < |less| && Holds(less[i], k) {
      var i :| 0 <= i < |spans| && Holds(spans[i], k);
      if i == d {
        CarriesText(out[d], accepted[spans[d].start..spans[d].end], k - spans[d].start);
      } else {
        assert less[if i < d then i else i - 1] == spans[i];
      }
    }
  }

  /** A text output carries nothing but text. */
  lemma {:induction false} CarriesText(out: StreamEvent, input: seq<StreamEvent>, i: nat)
    requires Carries(out, input) && out.TextDelta? && i < |input|
    ensures input[i].TextDelta?
    decreases |input|
  {
    if |input| > 1 && i < |input| - 1 {
      var n := |input| - 1;
      var rest :| Carries(TextDelta(out.turn, rest), input[..n]) && out.delta == rest + input[n].delta;
      CarriesText(TextDelta(out.turn, rest), input[..n], i);
    }
  }

  lemma StepIsTraced(capacity: nat, h: History, op: Op, spans: seq<Span>) returns (after: seq<Span>)
    requires Traced(Output(h), h.accepted, spans) && EndsLast(spans, |h.accepted|)
    ensures
      var k := Step(capacity, h, op);
      Traced(Output(k), k.accepted, after) && EndsLast(after, |k.accepted|)
  {
    hide Traced, Output, Coalesce, Without;
    var out := Output(h);
    after := spans;
    if op.Pop? {
      OutputOfPop(capacity, h);
    } else {
      var e, n, effect := op.event, |h.accepted|, PushEffect(capacity, h.buffered, op.event);
      OutputOfPush(capacity, h, e);
      TracedLength(out, h.accepted, spans);
      if effect.Appended? {
        TracedAppend(out, h.accepted, spans, e);
        after := spans + [Span(n, n + 1)];
      } else if effect.Merged? {
        TracedMerge(out, h.accepted, spans, e);
        after := spans[..|spans| - 1] + [Span(spans[|spans| - 1].start, n + 1)];
      } else if effect.Evicted? {
        var d := |h.popped| + effect.index;
        TracedDrop(out, h.accepted, spans, d);
        TracedAppend(Without(out, d), h.accepted, spans[..d] + spans[d + 1..], e);
        after := spans[..d] + spans[d + 1..] + [Span(n, n + 1)];
      }
    }
  }

  lemma TracedLength(out: seq<StreamEvent>, accepted: seq<StreamEvent>, spans: seq<Span>)
    requires Traced(out, accepted, spans)
    ensures |spans| == |out|
  {
  }

  lemma {:induction false} TraceOfRun(capacity: nat, ops: seq<Op>) returns (spans: seq<Span>)
    ensures
      var h := Run(capacity, ops);
      Traced(Output(h), h.accepted, spans) && EndsLast(spans, |h.accepted|)
    decreases |ops|
  {
    if ops == [] {
      spans := [];
    } else {
      hide Traced, Output, Step;
      var n := |ops| - 1;
      var before := TraceOfRun(capacity, ops[..n]);
      spans := StepIsTraced(capacity, Run(capacity, ops[..n]), ops[n], before);
    }
  }

  /**
  Whatever is evicted, every output event is one accepted event or the merge of
  consecutive accepted text deltas of one turn, in the accepted order, and only
  text deltas are missing.
  */
  lemma RunsAreTraced(capacity: nat, ops: seq<Op>)
    ensures var h := Run(capacity, ops); exists spans :: Traced(Output(h), h.accepted, spans)
  {
    var spans := TraceOfRun(capacity, ops);
  }
}
