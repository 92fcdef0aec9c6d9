/**
  The action table of the action panel (src/components/ActionPanel.tsx) and
  the boolean guards the panel derives from it.
 */
module ActionTable {
  import opened Wrappers
  import opened Gestures

  /** Colour families used by the panel's table and by the gesture display. */
  datatype Color = Blue | Red | Green | Purple | Pink | Gray

  /** One entry of `gestureActions`; the icon component is presentation only. */
  datatype Action = Action(name: string, color: Color, description: string)

  /** `gestureActions`: gesture label to the action it triggers. */
  const GestureActions: map<string, Action> := map[
    "open_palm" := Action("Volume Up", Blue, "Increase system volume"),
    "fist" := Action("Volume Down", Red, "Decrease system volume"),
    "thumbs_up" := Action("Brightness Up", Green, "Increase screen brightness"),
    "swipe_left" := Action("Previous Tab", Purple, "Switch to previous browser tab"),
    "swipe_right" := Action("Next Tab", Pink, "Switch to next browser tab")
  ]

  /** `gestureActions[gesture]` when the label is a key, nothing otherwise. */
  function Lookup(gesture: string): (r: Option<Action>)
    ensures r.Some? <==> Parse(gesture).Some? && Parse(gesture).value != NoGesture
    ensures r.Some? ==> r.value == GestureActions[gesture]
    ensures r.Some? ==> r.value.name != "" && r.value.color != Gray
  {
    if gesture in GestureActions then Some(GestureActions[gesture]) else None
  }

  /** The table holds exactly these five pairs of label and action name. */
  lemma TableIsExactly()
    ensures GestureActions.Keys == {"open_palm", "fist", "thumbs_up", "swipe_left", "swipe_right"}
    ensures GestureActions["open_palm"].name == "Volume Up"
    ensures GestureActions["fist"].name == "Volume Down"
    ensures GestureActions["thumbs_up"].name == "Brightness Up"
    ensures GestureActions["swipe_left"].name == "Previous Tab"
    ensures GestureActions["swipe_right"].name == "Next Tab"
  {
  }

  /**
    Distinct labels trigger distinct actions with distinct colours, so the last
    action's name identifies the gesture that fired it.
   */
  lemma ActionsDistinct(a: string, b: string)
    requires a in GestureActions && b in GestureActions
    ensures GestureActions[a].name == GestureActions[b].name <==> a == b
    ensures GestureActions[a].color == GestureActions[b].color <==> a == b
  {
  }

  /**
    Guard of the dispatch effect and of the "current action" box: the label is
    not the idle sentinel and has an entry in the table.
   */
  predicate Dispatchable(gesture: string)
  {
    gesture != NoneLabel && gesture in GestureActions
  }

  /** The explicit `'none'` test is subsumed by the table lookup. */
  lemma DispatchableIffMapped(gesture: string)
    ensures Dispatchable(gesture) <==> Lookup(gesture).Some?
    ensures !Dispatchable(NoneLabel)
  {
  }

  /** `isActive` for the list entry keyed `key`. */
  predicate IsActive(current: string, key: string)
  {
    current == key
  }

  /** The keys of the list entries rendered as active. */
  function ActiveEntries(current: string): (active: set<string>)
    ensures |active| <= 1
    ensures forall k :: k in active ==> k == current && k in GestureActions
    ensures active != {} <==> Dispatchable(current)
  {
    var active := set k | k in GestureActions && IsActive(current, k);
    assert active == if current in GestureActions then {current} else {};
    active
  }

  /** The "Last action" box is rendered iff the string is truthy, i.e. non-empty. */
  predicate LastActionShown(lastAction: string)
  {
    lastAction != ""
  }
}
