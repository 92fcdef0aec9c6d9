/**
  The simulated gesture detector (src/hooks/useGestureDetection.ts) as an event
  machine. Timers become events: `LoadFinished` ends the model-load wait,
  `TimerFired` is the pending `cycleGestures` timer going off (carrying the
  `Math.random()` draw it uses), and `Unmount` runs the effect's cleanup.
  State updates requested after unmount are dropped, as React drops them.
 */
module GestureSource {
  import opened Gestures

  /** `gestures`: the round-robin order of the simulation. */
  const Cycle: seq<Gesture> := [OpenPalm, Fist, ThumbsUp, SwipeLeft, SwipeRight, NoGesture]

  /** A value of `Math.random()`. */
  type Random = r: real | 0.0 <= r < 1.0 witness 0.0

  /** Still waiting for the model, or cycling with the next index to emit. */
  datatype Phase = Loading | Simulating(index: nat)

  /** `gestureTimeoutRef.current`: null, or a timer handle that may still be pending. */
  datatype TimerRef = Empty | Handle(pending: bool)

  datatype HookState = HookState(
    gesture: string,
    confidence: real,
    modelReady: bool,
    phase: Phase,
    timer: TimerRef,
    mounted: bool)

  datatype Event = LoadFinished | TimerFired(random: Random) | Unmount

  /** The hook right after mounting: idle label, zero confidence, model not ready. */
  const Mounted: HookState := HookState(NoneLabel, 0.0, false, Loading, Empty, true)

  /** The invariant every reachable hook state keeps. */
  predicate Valid(s: HookState)
  {
    && (s.phase.Simulating? ==> s.phase.index < |Cycle|)
    && (s.phase.Loading? <==> s.timer == Empty)
    && (s.phase.Simulating? && s.mounted ==> s.timer == Handle(true))
    && (s.mounted ==> (s.modelReady <==> s.phase.Simulating?))
    && IsKnown(s.gesture)
    && (s.confidence == 0.0 <==> s.gesture == NoneLabel)
    && (s.gesture != NoneLabel ==> 0.8 <= s.confidence < 1.0)
  }

  /** The confidence `cycleGestures` assigns to the label it picks. */
  function ConfidenceFor(g: Gesture, random: Random): (c: real)
    ensures c == 0.0 <==> g == NoGesture
    ensures g != NoGesture ==> 0.8 <= c < 1.0
  {
    if g == NoGesture then 0.0 else 0.8 + random * 0.2
  }

  /** Whether the event makes `cycleGestures` run: its timer is pending and goes off. */
  predicate Picks(s: HookState, e: Event)
  {
    e.TimerFired? && s.phase.Simulating? && s.timer == Handle(true)
  }

  /** `loadModel` resumes: the ready flag is set and `startGestureSimulation` arms the first timer. */
  function FinishLoading(s: HookState): (r: HookState)
    requires s.phase.Loading?
    ensures Valid(s) ==> Valid(r)
    ensures s.mounted ==> r.modelReady
    ensures r.phase == Simulating(0) && Picks(r, TimerFired(0.0))
    ensures r.gesture == s.gesture && r.confidence == s.confidence && r.mounted == s.mounted
  {
    s.(modelReady := s.mounted || s.modelReady, phase := Simulating(0), timer := Handle(true))
  }

  /** `cycleGestures`: publish `gestures[currentIndex]` with its confidence, advance, re-arm. */
  function CycleGestures(s: HookState, random: Random): (r: HookState)
    requires s.phase.Simulating? && s.phase.index < |Cycle|
    ensures Valid(s) ==> Valid(r)
    ensures s.mounted ==>
              r.gesture == Name(Cycle[s.phase.index]) &&
              r.confidence == ConfidenceFor(Cycle[s.phase.index], random)
    ensures !s.mounted ==> r.gesture == s.gesture && r.confidence == s.confidence
    ensures r.phase.Simulating? && r.phase.index == (s.phase.index + 1) % |Cycle|
    ensures Picks(r, TimerFired(random))
    ensures r.mounted == s.mounted && r.modelReady == s.modelReady
  {
    var g := Cycle[s.phase.index];
    s.(gesture := if s.mounted then Name(g) else s.gesture,
       confidence := if s.mounted then ConfidenceFor(g, random) else s.confidence,
       phase := Simulating((s.phase.index + 1) % |Cycle|),
       timer := Handle(true))
  }

  /** The effect's cleanup: clear whatever timer the ref holds; the load wait is not cancelled. */
  function Cleanup(s: HookState): (r: HookState)
    ensures !r.mounted && r.timer != Handle(true)
    ensures r.timer == Empty <==> s.timer == Empty
    ensures r.phase == s.phase && r.gesture == s.gesture && r.confidence == s.confidence
    ensures r.modelReady == s.modelReady
  {
    s.(timer := if s.timer.Handle? then Handle(false) else Empty, mounted := false)
  }

  /** One event. Events that cannot happen in a state (a cleared timer, a second load) change nothing. */
  function Apply(s: HookState, e: Event): (r: HookState)
    requires Valid(s)
    ensures Valid(r)
    ensures s.modelReady ==> r.modelReady
    ensures !s.mounted ==> !r.mounted
    ensures !s.mounted ==>
              r.gesture == s.gesture && r.confidence == s.confidence && r.modelReady == s.modelReady
    ensures Picks(s, e) ==> r.phase.Simulating? && r.phase.index == (s.phase.index + 1) % |Cycle|
    ensures Picks(s, e) && s.mounted ==> r.gesture == Name(Cycle[s.phase.index])
    ensures !Picks(s, e) ==> r.gesture == s.gesture && r.confidence == s.confidence
    ensures e.LoadFinished? && s.phase.Loading? ==>
              r.phase == Simulating(0) && r.timer == Handle(true) && r.mounted == s.mounted &&
              r.modelReady == (s.mounted || s.modelReady)
    ensures e.LoadFinished? && s.phase.Simulating? ==> r == s
    ensures e.Unmount? ==> !r.mounted
    ensures !e.Unmount? ==> r.mounted == s.mounted
    ensures e.TimerFired? && !Picks(s, e) ==> r == s
    ensures e.Unmount? && s.mounted ==> r.timer != Handle(true) && r.phase == s.phase
  {
    match e
    case LoadFinished => if s.phase.Loading? then FinishLoading(s) else s
    case TimerFired(random) => if Picks(s, e) then CycleGestures(s, random) else s
    case Unmount => if s.mounted then Cleanup(s) else s
  }

  /** The state after the events, applied in order. */
  function RunFrom(s: HookState, events: seq<Event>): (r: HookState)
    requires Valid(s)
    ensures Valid(r)
    decreases |events|
  {
    if |events| == 0 then s
    else Apply(RunFrom(s, events[..|events| - 1]), events[|events| - 1])
  }

  function Run(events: seq<Event>): HookState
  {
    RunFrom(Mounted, events)
  }

  /** The labels `cycleGestures` picks during the events, in order. */
  function Emitted(s: HookState, events: seq<Event>): seq<string>
    requires Valid(s)
    decreases |events|
  {
    if |events| == 0 then []
    else
      var n := |events|;
      var before := RunFrom(s, events[..n - 1]);
      Emitted(s, events[..n - 1]) +
        (if Picks(before, events[n - 1]) then [Name(Cycle[before.phase.index])] else [])
  }

  /** The hook starts with label `'none'`, confidence 0 and the model not ready. */
  lemma InitialState()
    ensures Valid(Mounted)
    ensures Run([]).gesture == NoneLabel && Run([]).confidence == 0.0 && !Run([]).modelReady
  {
  }

  /** When the load wait ends on a mounted hook, the model is ready and the first pick is `gestures[0]`. */
  lemma LoadThenFirstPick(random: Random)
    ensures Run([LoadFinished]).modelReady && Run([LoadFinished]).phase == Simulating(0)
    ensures Run([LoadFinished, TimerFired(random)]).gesture == Name(OpenPalm)
    ensures Emitted(Mounted, [LoadFinished, TimerFired(random)]) == [Name(OpenPalm)]
  {
    var evs := [LoadFinished, TimerFired(random)];
    var s1 := Apply(Mounted, LoadFinished);
    assert evs[..1] == [LoadFinished];
    assert evs[..1][..0] == [];
    assert RunFrom(Mounted, evs[..1]) == s1;
    assert Picks(s1, TimerFired(random));
    assert Emitted(Mounted, evs[..1]) == [];
  }

  /** Without an unmount the hook stays mounted, so every pick is published. */
  lemma {:induction false} StaysMounted(events: seq<Event>)
    requires forall i :: 0 <= i < |events| ==> !events[i].Unmount?
    ensures Run(events).mounted
    decreases |events|
  {
    if |events| > 0 {
      var prefix := events[..|events| - 1];
      assert forall i :: 0 <= i < |prefix| ==> prefix[i] == events[i];
      StaysMounted(prefix);
    }
  }

  lemma NextIndex(n: nat)
    ensures (n % |Cycle| + 1) % |Cycle| == (n + 1) % |Cycle|
  {
  }

  /** One event extends the picked labels by the cycle entry at the current index, or by nothing. */
  lemma EmittedSnoc(s: HookState, events: seq<Event>)
    requires Valid(s) && |events| > 0
    ensures var before := RunFrom(s, events[..|events| - 1]);
      && RunFrom(s, events) == Apply(before, events[|events| - 1])
      && Emitted(s, events) ==
           Emitted(s, events[..|events| - 1]) +
           (if Picks(before, events[|events| - 1]) then [Name(Cycle[before.phase.index])] else [])
  {
  }

  /** One event keeps the cycle index equal to the number of picks modulo 6. */
  lemma IndexStep(before: HookState, e: Event, picks: nat)
    requires Valid(before)
    requires before.phase.Loading? ==> picks == 0
    requires before.phase.Simulating? ==> before.phase.index == picks % |Cycle|
    ensures var r := Apply(before, e); var picks' := if Picks(before, e) then picks + 1 else picks;
      && (r.phase.Loading? ==> picks' == 0)
      && (r.phase.Simulating? ==> r.phase.index == picks' % |Cycle|)
  {
    if Picks(before, e) {
      NextIndex(picks);
    }
  }

  /** The cycle index counts the picks modulo 6; nothing is picked while loading. */
  lemma {:induction false} IndexCountsPicks(events: seq<Event>)
    ensures var r := Run(events); var em := Emitted(Mounted, events);
      && (r.phase.Loading? ==> |em| == 0)
      && (r.phase.Simulating? ==> r.phase.index == |em| % |Cycle|)
    decreases |events|
  {
    if |events| > 0 {
      var n := |events|;
      var prefix, e := events[..n - 1], events[n - 1];
      IndexCountsPicks(prefix);
      var before, em := Run(prefix), Emitted(Mounted, prefix);
      EmittedSnoc(Mounted, events);
      assert Run(events) == Apply(before, e);
      IndexStep(before, e, |em|);
      assert |Emitted(Mounted, events)| == if Picks(before, e) then |em| + 1 else |em|;
    }
  }

  /** One event keeps the published label equal to the last label picked. */
  lemma PublishStep(before: HookState, e: Event, picked: seq<string>)
    requires Valid(before)
    requires before.mounted ==> before.gesture == if |picked| == 0 then NoneLabel else picked[|picked| - 1]
    ensures var r := Apply(before, e);
      var picked' := if Picks(before, e) then picked + [Name(Cycle[before.phase.index])] else picked;
      r.mounted ==> r.gesture == if |picked'| == 0 then NoneLabel else picked'[|picked'| - 1]
  {
  }

  /** While mounted, the published label is the last one picked (`'none'` before the first pick). */
  lemma {:induction false} PublishedIsLastPick(events: seq<Event>)
    ensures var r := Run(events); var em := Emitted(Mounted, events);
      r.mounted ==> r.gesture == if |em| == 0 then NoneLabel else em[|em| - 1]
    decreases |events|
  {
    if |events| > 0 {
      var n := |events|;
      var prefix, e := events[..n - 1], events[n - 1];
      PublishedIsLastPick(prefix);
      var before, em := Run(prefix), Emitted(Mounted, prefix);
      EmittedSnoc(Mounted, events);
      assert Run(events) == Apply(before, e);
      PublishStep(before, e, em);
    }
  }

  /** Round robin: the k-th label picked is `gestures[k mod 6]`. */
  lemma {:induction false} RoundRobin(events: seq<Event>)
    ensures var em := Emitted(Mounted, events);
      forall k :: 0 <= k < |em| ==> em[k] == Name(Cycle[k % |Cycle|])
    decreases |events|
  {
    if |events| > 0 {
      var n := |events|;
      var prefix := events[..n - 1];
      RoundRobin(prefix);
      IndexCountsPicks(prefix);
      EmittedSnoc(Mounted, events);
      var em := Emitted(Mounted, prefix);
      var em' := Emitted(Mounted, events);
      forall k | 0 <= k < |em'|
        ensures em'[k] == Name(Cycle[k % |Cycle|])
      {
        if k < |em| {
          assert em'[k] == em[k];
        }
      }
    }
  }

  /** Neighbouring positions of the cycle hold different gestures, the last one wrapping to the first. */
  lemma NeighboursDiffer(k: nat)
    ensures Cycle[k % |Cycle|] != Cycle[(k + 1) % |Cycle|]
  {
    NextIndex(k);
    var i := k % |Cycle|;
    assert (k + 1) % |Cycle| == if i == 5 then 0 else i + 1;
  }

  /** Two consecutive picks are always different labels. */
  lemma ConsecutiveDistinct(events: seq<Event>)
    ensures var em := Emitted(Mounted, events);
      forall k :: 0 <= k < |em| - 1 ==> em[k] != em[k + 1]
  {
    var em := Emitted(Mounted, events);
    RoundRobin(events);
    forall k | 0 <= k < |em| - 1
      ensures em[k] != em[k + 1]
    {
      NeighboursDiffer(k);
      NameInjective(Cycle[k % |Cycle|], Cycle[(k + 1) % |Cycle|]);
    }
  }

  /** `isModelReady` is only ever set to true: once seen true, it stays true. */
  lemma {:induction false} ReadyMonotone(events: seq<Event>, i: nat, j: nat)
    requires i <= j <= |events|
    ensures Run(events[..i]).modelReady ==> Run(events[..j]).modelReady
    decreases j
  {
    if i < j {
      ReadyMonotone(events, i, j - 1);
      assert events[..j][..j - 1] == events[..j - 1];
    }
  }

  /**
    Cleanup after the simulation has started clears the pending timer, and
    nothing changes afterwards whatever happens.
   */
  lemma {:induction false} CleanupAfterStartStops(s: HookState, events: seq<Event>)
    requires Valid(s) && s.mounted && s.phase.Simulating?
    ensures Apply(s, Unmount).timer == Handle(false)
    ensures RunFrom(Apply(s, Unmount), events) == Apply(s, Unmount)
    ensures Emitted(Apply(s, Unmount), events) == []
    decreases |events|
  {
    if |events| > 0 {
      CleanupAfterStartStops(s, events[..|events| - 1]);
    }
  }

  /**
    Cleanup during the load wait does not cancel it: the simulation still
    starts afterwards and its timer stays armed through any later events, while
    the published label, confidence and ready flag stay as they were at cleanup.
   */
  lemma {:induction false} CleanupDuringLoadKeepsTimer(s: HookState, events: seq<Event>)
    requires Valid(s) && s.mounted && s.phase.Loading?
    ensures var t := Apply(Apply(s, Unmount), LoadFinished);
      && t.timer == Handle(true)
      && RunFrom(t, events).timer == Handle(true)
      && RunFrom(t, events).gesture == s.gesture
      && RunFrom(t, events).confidence == s.confidence
      && RunFrom(t, events).modelReady == s.modelReady
    decreases |events|
  {
    if |events| > 0 {
      CleanupDuringLoadKeepsTimer(s, events[..|events| - 1]);
    }
  }

  /** Concretely: unmount while loading, then the load finishes and the timer fires twice. */
  lemma LoadLeakExample()
    ensures var t := Run([Unmount, LoadFinished, TimerFired(0.5), TimerFired(0.5)]);
      t.timer == Handle(true) && t.phase == Simulating(2) && t.gesture == NoneLabel && !t.modelReady
  {
    var evs := [Unmount, LoadFinished, TimerFired(0.5), TimerFired(0.5)];
    var s1 := Apply(Mounted, Unmount);
    assert s1 == Mounted.(mounted := false);
    var s2 := Apply(s1, LoadFinished);
    assert s2 == s1.(phase := Simulating(0), timer := Handle(true));
    var s3 := Apply(s2, TimerFired(0.5));
    assert s3 == s2.(phase := Simulating(1));
    var s4 := Apply(s3, TimerFired(0.5));
    assert s4 == s2.(phase := Simulating(2));
    assert evs[..1][..0] == [];
    assert RunFrom(Mounted, evs[..1]) == s1;
    assert evs[..2][..1] == evs[..1];
    assert RunFrom(Mounted, evs[..2]) == s2;
    assert evs[..3][..2] == evs[..2];
    assert RunFrom(Mounted, evs[..3]) == s3;
    assert evs[..3] == evs[..|evs| - 1];
  }
}
