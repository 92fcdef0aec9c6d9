/**
  The application wiring (src/App.tsx passes `currentGesture` to both cards):
  the simulated detector's labels drive the action panel's dispatch effect and
  the gesture card's guards.
 */
module Pipeline {
  import opened Gestures
  import opened ActionTable
  import ActionDispatch
  import GestureSource
  import GestureDisplay

  /** The labels follow the simulation's round robin from its start. */
  predicate IsRoundRobin(labels: seq<string>)
  {
    forall k :: 0 <= k < |labels| ==> labels[k] == Name(GestureSource.Cycle[k % |GestureSource.Cycle|])
  }

  /** Every label of the cycle except `'none'` has an action. */
  lemma CycleLabelsDispatchable(g: Gesture)
    ensures Dispatchable(Name(g)) <==> g != NoGesture
  {
    ParseName(g);
    DispatchableIffMapped(Name(g));
  }

  /** Fed the simulated stream, the panel fires at exactly the non-idle labels. */
  lemma SimulatedStreamFires(labels: seq<string>, i: nat)
    requires IsRoundRobin(labels) && i < |labels|
    ensures ActionDispatch.FiresAt(labels, i) <==> labels[i] != NoneLabel
  {
    var c := GestureSource.Cycle;
    CycleLabelsDispatchable(c[i % |c|]);
    if i == 0 {
      assert labels[0] == Name(OpenPalm);
    } else {
      GestureSource.NeighboursDiffer(i - 1);
      NameInjective(c[(i - 1) % |c|], c[i % |c|]);
    }
  }

  lemma CountStep(m: nat)
    ensures (m + 1) / 6 == m / 6 + (if m % 6 == 5 then 1 else 0)
  {
  }

  /** In the simulated stream, position i fires unless it holds the sixth label, `'none'`. */
  lemma SimulatedFiresAt(labels: seq<string>, i: nat)
    requires IsRoundRobin(labels) && i < |labels|
    ensures ActionDispatch.FiresAt(labels, i) <==> i % 6 != 5
  {
    var c := GestureSource.Cycle;
    assert |c| == 6;
    SimulatedStreamFires(labels, i);
    NameInjective(c[i % 6], NoGesture);
  }

  /** Over k simulated labels the panel speaks k - k/6 times: once per label except each `'none'`. */
  lemma {:induction false} SimulatedFireCount(labels: seq<string>)
    requires IsRoundRobin(labels)
    ensures |ActionDispatch.Run(labels).spoken| == |labels| - |labels| / 6
    decreases |labels|
  {
    if |labels| > 0 {
      var n := |labels|;
      var prefix := labels[..n - 1];
      RoundRobinPrefix(labels);
      SimulatedFireCount(prefix);
      ActionDispatch.SpokenSnoc(labels);
      SimulatedFiresAt(labels, n - 1);
      FireCountStep(n - 1, |ActionDispatch.Run(prefix).spoken|, |ActionDispatch.Run(labels).spoken|);
    }
  }

  lemma RoundRobinPrefix(labels: seq<string>)
    requires IsRoundRobin(labels) && |labels| > 0
    ensures IsRoundRobin(labels[..|labels| - 1])
  {
  }

  /** The count k - k/6 grows by one at each position except the sixth of every round. */
  lemma FireCountStep(m: nat, before: nat, after: nat)
    requires before == m - m / 6
    requires after == before + (if m % 6 != 5 then 1 else 0)
    ensures after == (m + 1) - (m + 1) / 6
  {
    CountStep(m);
  }

  /** The detector's picks, fed to the panel, fire once per pick of a label other than `'none'`. */
  lemma DetectorDrivesPanel(events: seq<GestureSource.Event>)
    ensures var picked := GestureSource.Emitted(GestureSource.Mounted, events);
      |ActionDispatch.Run(picked).spoken| == |picked| - |picked| / 6
  {
    GestureSource.RoundRobin(events);
    SimulatedFireCount(GestureSource.Emitted(GestureSource.Mounted, events));
  }

  /** One detector sample: a label and its confidence. */
  datatype Observation = Observation(gesture: string, confidence: real)

  function Labels(observations: seq<Observation>): (labels: seq<string>)
    ensures |labels| == |observations|
  {
    seq(|observations|, i requires 0 <= i < |observations| => observations[i].gesture)
  }

  /**
    Confidence never gates firing: streams with the same labels dispatch
    identically. This holds by construction, since the panel's props carry only
    the label; the lemma records that interface rather than a proof about it.
   */
  lemma ConfidenceNeverGates(a: seq<Observation>, b: seq<Observation>)
    requires |a| == |b|
    requires forall i :: 0 <= i < |a| ==> a[i].gesture == b[i].gesture
    ensures ActionDispatch.Run(Labels(a)) == ActionDispatch.Run(Labels(b))
  {
    assert Labels(a) == Labels(b);
  }

  /** The confidence bar is shown exactly when the published confidence is non-zero. */
  lemma BarShownIffConfident(s: GestureSource.HookState)
    requires GestureSource.Valid(s)
    ensures GestureDisplay.Detected(s.gesture) <==> s.confidence > 0.0
  {
  }
}
