/**
  The dispatch effect of the action panel (src/components/ActionPanel.tsx):
  an effect with dependency list `[currentGesture]`, so it runs only when the
  label differs from the one of the previous render, and it fires the mapped
  action when the label is not `'none'` and has a table entry. A fire records
  the action name as `lastAction` and speaks it; the spoken names are kept as a
  log in place of the speech side effect.
 */
module ActionDispatch {
  import opened Gestures
  import opened ActionTable

  /** The label of the previous render, `lastAction`, and every name spoken so far. */
  datatype DispatchState = DispatchState(previous: string, lastAction: string, spoken: seq<string>)

  /** `lastAction` starts empty and the panel first renders with the idle label. */
  const Initial: DispatchState := DispatchState(NoneLabel, "", [])

  /** The names `executeAction` can ever be called with. */
  function ActionNames(): set<string>
  {
    set k | k in GestureActions :: GestureActions[k].name
  }

  /** `executeAction`: the name becomes the last action and is spoken once. */
  function ExecuteAction(st: DispatchState, action: string): (r: DispatchState)
    ensures r.previous == st.previous && r.lastAction == action
    ensures |r.spoken| == |st.spoken| + 1 && r.spoken[..|st.spoken|] == st.spoken
    ensures r.spoken[|st.spoken|] == action
    ensures LastActionShown(r.lastAction) <==> action != ""
  {
    st.(lastAction := action, spoken := st.spoken + [action])
  }

  /** Whether rendering `gesture` after the state `st` makes the effect fire. */
  predicate Fires(st: DispatchState, gesture: string)
  {
    gesture != st.previous && Dispatchable(gesture)
  }

  /** One render of the panel with `currentGesture == gesture`. */
  function Step(st: DispatchState, gesture: string): (r: DispatchState)
    ensures r.previous == gesture
    ensures Fires(st, gesture) ==>
              r.lastAction == GestureActions[gesture].name &&
              r.spoken == st.spoken + [GestureActions[gesture].name]
    ensures !Fires(st, gesture) ==> r.lastAction == st.lastAction && r.spoken == st.spoken
  {
    if gesture == st.previous then
      st  // dependency unchanged: the effect does not run
    else
      var moved := st.(previous := gesture);
      var action := Lookup(gesture);
      if gesture != NoneLabel && action.Some? then ExecuteAction(moved, action.value.name) else moved
  }

  /** The panel rendered once for each label of `labels`, in order. */
  function Run(labels: seq<string>): (r: DispatchState)
    ensures r.previous == if |labels| == 0 then NoneLabel else labels[|labels| - 1]
    decreases |labels|
  {
    if |labels| == 0 then Initial
    else Step(Run(labels[..|labels| - 1]), labels[|labels| - 1])
  }

  // Reference semantics, stated on positions of the label sequence alone.

  /** L_{i-1}, with L_{-1} the idle label the panel starts from. */
  function PreviousLabel(labels: seq<string>, i: nat): string
    requires i < |labels|
  {
    if i == 0 then NoneLabel else labels[i - 1]
  }

  /** A fire happens at position i iff the label changes there into a mapped, non-idle label. */
  predicate FiresAt(labels: seq<string>, i: nat)
    requires i < |labels|
  {
    labels[i] != PreviousLabel(labels, i) && Dispatchable(labels[i])
  }

  /** The positions at which a fire happens. */
  function FiringPositions(labels: seq<string>): set<nat>
  {
    set i: nat | i < |labels| && FiresAt(labels, i)
  }

  /** The action names fired, in position order. */
  function ExpectedLog(labels: seq<string>): (log: seq<string>)
    ensures |log| <= |labels|
    ensures forall j :: 0 <= j < |log| ==> log[j] in ActionNames() && log[j] != ""
    decreases |labels|
  {
    if |labels| == 0 then []
    else
      var n := |labels|;
      var rest := ExpectedLog(labels[..n - 1]);
      if FiresAt(labels, n - 1) then
        assert GestureActions[labels[n - 1]].name in ActionNames();
        rest + [GestureActions[labels[n - 1]].name]
      else rest
  }

  lemma PrefixFiresAt(labels: seq<string>, k: nat, i: nat)
    requires i < k <= |labels|
    ensures FiresAt(labels[..k], i) <==> FiresAt(labels, i)
  {
  }

  /**
    The panel's state after any sequence of renders: the previous label is the
    last one rendered, the spoken names are exactly the reference log, and
    `lastAction` is the last name spoken, or empty when nothing fired.
   */
  lemma {:induction false} RunMatchesReference(labels: seq<string>)
    ensures Run(labels).previous == if |labels| == 0 then NoneLabel else labels[|labels| - 1]
    ensures Run(labels).spoken == ExpectedLog(labels)
    ensures Run(labels).lastAction ==
              if |ExpectedLog(labels)| == 0 then "" else ExpectedLog(labels)[|ExpectedLog(labels)| - 1]
    decreases |labels|
  {
    if |labels| > 0 {
      var n := |labels|;
      var prefix := labels[..n - 1];
      RunMatchesReference(prefix);
      assert Run(prefix).previous == PreviousLabel(labels, n - 1);
      ReferenceStep(labels, Run(prefix));
    }
  }

  /** One render extends a state that matches the reference on the prefix to one that matches on the whole. */
  lemma ReferenceStep(labels: seq<string>, st: DispatchState)
    requires |labels| > 0
    requires st.previous == PreviousLabel(labels, |labels| - 1)
    requires st.spoken == ExpectedLog(labels[..|labels| - 1])
    requires st.lastAction == if |st.spoken| == 0 then "" else st.spoken[|st.spoken| - 1]
    ensures var r := Step(st, labels[|labels| - 1]);
      && r.spoken == ExpectedLog(labels)
      && r.lastAction == if |r.spoken| == 0 then "" else r.spoken[|r.spoken| - 1]
  {
    assert Fires(st, labels[|labels| - 1]) <==> FiresAt(labels, |labels| - 1);
  }

  /** One more render speaks one more name iff it fires. */
  lemma SpokenSnoc(labels: seq<string>)
    requires |labels| > 0
    ensures |Run(labels).spoken| ==
              |Run(labels[..|labels| - 1]).spoken| + (if FiresAt(labels, |labels| - 1) then 1 else 0)
  {
    RunMatchesReference(labels);
    RunMatchesReference(labels[..|labels| - 1]);
  }

  /** Appending a label adds its position to the firing positions iff it fires there. */
  lemma FiringPositionsSnoc(labels: seq<string>)
    requires |labels| > 0
    ensures FiringPositions(labels) ==
              FiringPositions(labels[..|labels| - 1]) +
              (if FiresAt(labels, |labels| - 1) then {|labels| - 1} else {})
  {
    var n := |labels|;
    forall i: nat | i < n - 1
      ensures FiresAt(labels[..n - 1], i) <==> FiresAt(labels, i)
    {
      PrefixFiresAt(labels, n - 1, i);
    }
  }

  /** Fire count: one spoken name per position where the label changes into a mapped, non-idle label. */
  lemma {:induction false} FireCount(labels: seq<string>)
    ensures |Run(labels).spoken| == |FiringPositions(labels)|
    decreases |labels|
  {
    RunMatchesReference(labels);
    if |labels| > 0 {
      var n := |labels|;
      var prefix := labels[..n - 1];
      FireCount(prefix);
      RunMatchesReference(prefix);
      FiringPositionsSnoc(labels);
      var earlier := FiringPositions(prefix);
      assert n - 1 !in earlier;
    }
  }

  /** "Last action" is on screen iff at least one action has fired. */
  lemma LastActionShownIffFired(labels: seq<string>)
    ensures LastActionShown(Run(labels).lastAction) <==> |Run(labels).spoken| > 0
    ensures Run(labels).lastAction == "" || Run(labels).lastAction in ActionNames()
  {
    RunMatchesReference(labels);
  }

  /**
    Whenever the "current action" box is shown, the "Last action" box names the
    same action: the current label fired when it was entered and nothing has
    fired since.
   */
  lemma {:induction false} CurrentActionIsLastAction(labels: seq<string>)
    requires |labels| > 0 && Dispatchable(labels[|labels| - 1])
    ensures Run(labels).lastAction == GestureActions[labels[|labels| - 1]].name
    decreases |labels|
  {
    var n := |labels|;
    var prefix := labels[..n - 1];
    RunMatchesReference(prefix);
    if n > 1 && labels[n - 2] == labels[n - 1] {
      assert prefix[|prefix| - 1] == labels[n - 1];
      CurrentActionIsLastAction(prefix);
    }
  }

  /** Rendering the same label again is a no-op: the effect's dependency did not change. */
  lemma {:induction false} HoldFiresAtMostOnce(prefix: seq<string>, gesture: string, k: nat)
    ensures Run(prefix + seq(k + 1, _ => gesture)) == Run(prefix + [gesture])
    ensures |Run(prefix + seq(k + 1, _ => gesture)).spoken| <= |Run(prefix).spoken| + 1
    decreases k
  {
    var held := prefix + seq(k + 1, _ => gesture);
    var once := prefix + [gesture];
    assert once[..|once| - 1] == prefix;
    if k == 0 {
      assert held == once;
    } else {
      HoldFiresAtMostOnce(prefix, gesture, k - 1);
      assert held[..|held| - 1] == prefix + seq(k, _ => gesture);
      assert Run(held) == Step(Run(once), gesture);
    }
  }

  /** Re-entering a mapped label after any different label, idle included, fires it again. */
  lemma ReentryFiresAgain(prefix: seq<string>, gesture: string, other: string)
    requires Dispatchable(gesture) && other != gesture
    ensures Run(prefix + [gesture, other, gesture]).lastAction == GestureActions[gesture].name
    ensures Run(prefix + [gesture, other, gesture]).spoken ==
              Run(prefix + [gesture, other]).spoken + [GestureActions[gesture].name]
  {
    var two := prefix + [gesture, other];
    var three := prefix + [gesture, other, gesture];
    assert three[..|three| - 1] == two;
    assert two[..|two| - 1] == prefix + [gesture];
  }

  /** `[fist, none, fist]` speaks "Volume Down" twice. */
  lemma ReentryExample()
    ensures Run(["fist", NoneLabel, "fist"]).spoken == ["Volume Down", "Volume Down"]
  {
    var ls := ["fist", NoneLabel, "fist"];
    assert ls[..2] == ["fist", NoneLabel] && ls[..1] == ["fist"];
    var s1 := Step(Initial, "fist");
    assert s1 == DispatchState("fist", "Volume Down", ["Volume Down"]);
    var s2 := Step(s1, NoneLabel);
    assert s2 == DispatchState(NoneLabel, "Volume Down", ["Volume Down"]);
    assert ls[..1][..0] == [];
    assert Run(ls[..1]) == s1;
    assert ls[..2][..1] == ls[..1];
    assert Run(ls[..2]) == s2;
    assert ls[..2] == ls[..|ls| - 1];
  }

  /** The stream open_palm, open_palm, fist, none, fist fires three times. */
  lemma ScenarioExample()
    ensures Run(["open_palm", "open_palm", "fist", NoneLabel, "fist"]).spoken ==
              ["Volume Up", "Volume Down", "Volume Down"]
  {
    var ls := ["open_palm", "open_palm", "fist", NoneLabel, "fist"];
    assert ls[..4] == ["open_palm", "open_palm", "fist", NoneLabel];
    assert ls[..3] == ["open_palm", "open_palm", "fist"];
    assert ls[..2] == ["open_palm", "open_palm"];
    assert ls[..1] == ["open_palm"];
    var s1 := Step(Initial, "open_palm");
    assert s1 == DispatchState("open_palm", "Volume Up", ["Volume Up"]);
    var s2 := Step(s1, "open_palm");
    assert s2 == s1;
    var s3 := Step(s2, "fist");
    assert s3 == DispatchState("fist", "Volume Down", ["Volume Up", "Volume Down"]);
    var s4 := Step(s3, NoneLabel);
    assert s4 == s3.(previous := NoneLabel);
    assert ls[..1][..0] == [];
    assert Run(ls[..1]) == s1;
    assert ls[..2][..1] == ls[..1];
    assert Run(ls[..2]) == s2;
    assert ls[..3][..2] == ls[..2];
    assert Run(ls[..3]) == s3;
    assert ls[..4][..3] == ls[..3];
    assert Run(ls[..4]) == s4;
    assert ls[..4] == ls[..|ls| - 1];
  }

  /**
    The effect executed over a stream of renders: returns the final
    `lastAction` and the names spoken, in order.
   */
  method Dispatch(labels: seq<string>) returns (lastAction: string, spoken: seq<string>)
    ensures spoken == ExpectedLog(labels)
    ensures lastAction == if |spoken| == 0 then "" else spoken[|spoken| - 1]
  {
    var st := Initial;
    var i := 0;
    while i < |labels|
      invariant i <= |labels|
      invariant st == Run(labels[..i])
    {
      assert labels[..i + 1][..i] == labels[..i];
      st := Step(st, labels[i]);
      i := i + 1;
    }
    assert labels[..|labels|] == labels;
    RunMatchesReference(labels);
    lastAction, spoken := st.lastAction, st.spoken;
  }
}
