# SignSight gesture pipeline — a Dafny model

SignSight is a React demo. A gesture detector, which here is simulated, publishes a gesture
label and a confidence. The action panel turns each change of label into an action. The action
is recorded as the "last action" and spoken aloud. The gesture card shows the label in readable
form. This project models that pipeline in Dafny and proves its behaviour:

- `gestures.dfy`, module `Wrappers` (the `Option` type) and module `Gestures`: the six labels the detector emits. The idle sentinel is
  `"none"`. Components pass labels around as plain strings, so a label may also be any other
  string.
- `action_table.dfy`, module `ActionTable`: the `gestureActions` table of the action panel and
  the guards derived from it. These are the dispatch and "current action" guard, `isActive`,
  and the "Last action" guard.
- `action_dispatch.dfy`, module `ActionDispatch`: the dispatch effect, modelled as a fold
  over the labels of successive renders. Its state is the previous label, `lastAction` and the
  log of spoken names. It is checked against a reference definition that is stated on label
  positions alone: position *i* fires iff *Lᵢ ≠ Lᵢ₋₁*, *Lᵢ ≠ "none"* and *Lᵢ* has a table
  entry, with *L₋₁ = "none"*.
- `gesture_source.dfy`, module `GestureSource`: the `useGestureDetection` hook as an event
  machine with three events:
  - `LoadFinished`: the 2 s load wait ends.
  - `TimerFired(random)`: the pending `cycleGestures` timer goes off, with its `Math.random()`
    draw.
  - `Unmount`: the effect's cleanup runs.
- `gesture_display.dfy`, module `GestureDisplay`: `formatGestureName` (split, capitalise,
  join), `getGestureColor`, `getGestureIcon`, and the `'none'` guards of the card.
- `pipeline.dfy`, module `Pipeline`: the composition in `src/App.tsx`. The detector's labels
  drive the panel and the card.

Behaviour worth knowing, as the code has it:

- The panel's effect also runs once when the panel mounts. It then fires iff the mounted label
  is mapped. This matches the fold starting from the previous label `"none"`, because `"none"`
  never fires.
- React drops state updates made after unmount. So after cleanup the published label,
  confidence and ready flag never change.
- Cleanup clears only the timer held in `gestureTimeoutRef`. The 2 s load wait is not
  cancelled. If cleanup happens during loading, the simulation still starts afterwards and its
  timer chain re-arms forever (`GestureSource.CleanupDuringLoadKeepsTimer`). So a cleanup
  during loading leaves a timer chain running after unmount. A cleanup after the simulation has started does stop everything
  (`GestureSource.CleanupAfterStartStops`).
- The heading reads "No Gesture" exactly for `"none"` among the six labels. For arbitrary
  strings this fails: `"no_gesture"` also formats to "No Gesture"
  (`GestureDisplay.TitleCollision`).
- The `'none'` test in the dispatch guard is redundant. `"none"` has no table entry
  (`ActionTable.DispatchableIffMapped`).

## Model

| member | source | states |
|---|---|---|
| `ActionTable.TableIsExactly` | src/components/ActionPanel.tsx:12-43 | The table has exactly the keys open_palm, fist, thumbs_up, swipe_left and swipe_right. They map to "Volume Up", "Volume Down", "Brightness Up", "Previous Tab" and "Next Tab". |
| `ActionTable.Lookup` | src/components/ActionPanel.tsx:61-62 | The lookup finds an action iff the label is one of the five non-idle gestures the detector emits. A found action is the table's entry for that label, with a non-empty name and a non-gray colour. The dispatch step reads the action through this lookup. |
| `ActionTable.ActionsDistinct` | src/components/ActionPanel.tsx:12-43 | Two table entries have the same action name iff they are the same key. The same holds for their colours. So `lastAction` identifies the gesture that fired it. |
| `ActionTable.DispatchableIffMapped` | src/components/ActionPanel.tsx:61 | The guard "not `'none'` and in the table" holds iff the label is in the table. `'none'` never passes it. |
| `ActionTable.ActiveEntries` | src/components/ActionPanel.tsx:139-141 | At most one list entry is active, and only the entry whose key equals the current label. Some entry is active iff the "current action" box's guard holds. |
| `ActionDispatch.ExecuteAction` | src/components/ActionPanel.tsx:45-58 | Executing an action makes its name the last action and appends it to the spoken log exactly once. The earlier log and the previous label are untouched. The "Last action" box is shown afterwards iff the name is non-empty. |
| `ActionDispatch.Step` | src/components/ActionPanel.tsx:60-65 | A render fires iff its label differs from the previous render's label and passes the guard. A fire makes `lastAction` the mapped action's name and appends that name to the spoken log. Otherwise `lastAction` and the log are unchanged. The previous label becomes the rendered one. |
| `ActionDispatch.Run` | src/components/ActionPanel.tsx:60-65 | After a sequence of renders, the effect's dependency holds the last label rendered, or `'none'` before any. What was spoken and the last action are characterised by `ActionDispatch.RunMatchesReference`. |
| `ActionDispatch.RunMatchesReference` | src/components/ActionPanel.tsx:60-65 | After any label sequence, the spoken log equals the position-wise reference log. `lastAction` is the last spoken name, or the initial empty string if nothing fired. The previous label is the last label rendered. |
| `ActionDispatch.FireCount` | src/components/ActionPanel.tsx:60-65 | The number of fires equals the number of positions where the label changes into a mapped, non-idle label. |
| `ActionDispatch.LastActionShownIffFired` | src/components/ActionPanel.tsx:188 | The "Last action" box is shown iff at least one action has fired. `lastAction` is always empty or one of the table's action names, so only `executeAction` writes it. |
| `ActionDispatch.CurrentActionIsLastAction` | src/components/ActionPanel.tsx:60-65 | When the current label passes the guard, `lastAction` is that label's action name. The "current action" box and the "Last action" box then agree. |
| `ActionDispatch.HoldFiresAtMostOnce` | src/components/ActionPanel.tsx:60-65 | Rendering a label k+1 times in a row leaves the same state as rendering it once. Holding a label fires at most once. |
| `ActionDispatch.ReentryFiresAgain` | src/components/ActionPanel.tsx:60-65 | Re-entering a mapped label after any different label, `'none'` included, fires it again. Its name becomes `lastAction` and is appended to the log. |
| `ActionDispatch.ReentryExample` | src/components/ActionPanel.tsx:60-65 | The stream fist, none, fist speaks "Volume Down" twice. |
| `ActionDispatch.ScenarioExample` | src/components/ActionPanel.tsx:60-65 | The stream open_palm, open_palm, fist, none, fist speaks "Volume Up", "Volume Down", "Volume Down". |
| `ActionDispatch.Dispatch` | src/components/ActionPanel.tsx:45-65 | A loop over the renders, the shape a caller replaying the panel would write, returns the reference log of spoken names. It also returns the last of them as `lastAction`, or "" when none fired. |
| `GestureSource.InitialState` | src/hooks/useGestureDetection.ts:4-6 | The hook starts with label `'none'`, confidence 0 and the model not ready. This state satisfies the hook invariant. |
| `GestureSource.ConfidenceFor` | src/hooks/useGestureDetection.ts:41 | The confidence given to a picked label is 0 exactly for `'none'`. For any other label it lies in [0.8, 1). |
| `GestureSource.FinishLoading` | src/hooks/useGestureDetection.ts:15-19 | When the load wait ends, a mounted hook becomes ready and the cycle starts at index 0 with a pending timer, so the next timer event picks. The published label and confidence are untouched, and the invariant is kept. |
| `GestureSource.CycleGestures` | src/hooks/useGestureDetection.ts:38-48 | A mounted hook publishes `gestures[index]` with its confidence. The index advances by one modulo 6 and the timer is re-armed, so the next timer event picks again. On an unmounted hook the published state is unchanged. The invariant is kept. |
| `GestureSource.Cleanup` | src/hooks/useGestureDetection.ts:27-31 | Cleanup unmounts the hook and leaves no pending timer in the ref. It keeps the phase, so an outstanding load wait is not cancelled, and it keeps the published label, confidence and ready flag. |
| `GestureSource.Apply` | src/hooks/useGestureDetection.ts:9-52 | Every event keeps the invariant. Only `Unmount` changes whether the hook is mounted. A timer event with no pending timer changes nothing. The end of the load wait sets the ready flag (when mounted) and arms the first timer at index 0; a second load event changes nothing. Unmount clears a pending timer and marks the hook unmounted. The cycle index stays in [0, 6). The published label is one of the six and its confidence is consistent with it. The ready flag never goes back to false. After unmount nothing observable changes. A pick advances the index by one modulo 6 and publishes `gestures[index]`. Label and confidence change only together, on a pick. |
| `GestureSource.LoadThenFirstPick` | src/hooks/useGestureDetection.ts:15-51 | Once the load wait ends on a mounted hook, the model is ready and the simulation is at index 0. The first timer then publishes `open_palm`, and that is the only label picked so far. |
| `GestureSource.StaysMounted` | src/hooks/useGestureDetection.ts:38-47 | Without an unmount event the hook stays mounted. So every pick is published through `setCurrentGesture`, which with `GestureSource.PublishedIsLastPick` gives the labels the app receives. |
| `GestureSource.IndexCountsPicks` | src/hooks/useGestureDetection.ts:36-43 | Nothing is picked while loading. Once simulating, the cycle index equals the number of picks modulo 6, so it starts at 0. |
| `GestureSource.PublishedIsLastPick` | src/hooks/useGestureDetection.ts:39-40 | While mounted, the published label is the last label picked, or `'none'` before the first pick. |
| `GestureSource.RoundRobin` | src/hooks/useGestureDetection.ts:35-43 | The k-th label picked is `gestures[k mod 6]`, in the order open_palm, fist, thumbs_up, swipe_left, swipe_right, none. |
| `GestureSource.ConsecutiveDistinct` | src/hooks/useGestureDetection.ts:35-43 | Two consecutive picked labels are always different. |
| `GestureSource.ReadyMonotone` | src/hooks/useGestureDetection.ts:16 | Once `isModelReady` is observed true, it stays true at every later point of the run. |
| `GestureSource.CleanupAfterStartStops` | src/hooks/useGestureDetection.ts:27-31 | Cleanup after the simulation started leaves the timer in the ref cleared. After that, no event changes the state and no label is picked. |
| `GestureSource.CleanupDuringLoadKeepsTimer` | src/hooks/useGestureDetection.ts:15-31 | Cleanup during the load wait does not cancel it. When loading finishes, a timer is armed and stays armed through any later events. The published label, confidence and ready flag stay as they were at cleanup. |
| `GestureSource.LoadLeakExample` | src/hooks/useGestureDetection.ts:15-31 | Unmount, load finished, then two timer firings: the timer is still pending and the cycle index is 2. Nothing is published: the label is still `'none'` and the model is not ready. |
| `GestureDisplay.SplitJoin` | src/components/GestureDisplay.tsx:42 | Joining the pieces of `split('_')` with `_` gives the input back. |
| `GestureDisplay.SplitPieces` | src/components/GestureDisplay.tsx:42 | `split('_')` yields one piece more than there are underscores, and no piece contains an underscore. |
| `GestureDisplay.FormatGestureName` | src/components/GestureDisplay.tsx:41-45 | Splitting on `_`, capitalising each word and joining with spaces equals the one-pass character scan, and keeps the length. Character-level consequences are in `GestureDisplay.FormatPointwise`. |
| `GestureDisplay.FormatPointwise` | src/components/GestureDisplay.tsx:41-45 | The formatted name has the input's length. Each `_` becomes a space. A character that starts a word is upper-cased, and every other character is kept. So empty words stay empty. |
| `GestureDisplay.FormatRemovesUnderscores` | src/components/GestureDisplay.tsx:41-45 | The formatted name contains no underscore. |
| `GestureDisplay.FormatIdempotent` | src/components/GestureDisplay.tsx:41-45 | Formatting an already formatted name changes nothing. |
| `GestureDisplay.FormatOpenPalm` | src/components/GestureDisplay.tsx:41-45 | `open_palm` is displayed as "Open Palm". |
| `GestureDisplay.FormatThumbsUp` | src/components/GestureDisplay.tsx:41-45 | `thumbs_up` is displayed as "Thumbs Up". |
| `GestureDisplay.FormatFist` | src/components/GestureDisplay.tsx:41-45 | `fist` is displayed as "Fist". |
| `GestureDisplay.FormatSwipeLeft` | src/components/GestureDisplay.tsx:41-45 | `swipe_left` is displayed as "Swipe Left". |
| `GestureDisplay.FormatSwipeRight` | src/components/GestureDisplay.tsx:41-45 | `swipe_right` is displayed as "Swipe Right". |
| `GestureDisplay.GestureColor` | src/components/GestureDisplay.tsx:24-39 | Defined for every label. The colour is gray iff the label has no action table entry; otherwise it is the colour the action panel's table gives that label. The shade depends only on the theme. |
| `GestureDisplay.ColorsDistinct` | src/components/GestureDisplay.tsx:24-39 | The five labels with actions get five different colours. |
| `GestureDisplay.GestureIcon` | src/components/GestureDisplay.tsx:11-22 | Defined for every label. Only fist and thumbs_up get their own icons; open_palm and everything else get `Hand`. |
| `GestureDisplay.Title` | src/components/GestureDisplay.tsx:99 | The heading is "No Gesture" for `'none'`. For any other label it has the label's length, with each `_` shown as a space and each word capitalised. |
| `GestureDisplay.Detected` | src/components/GestureDisplay.tsx:83-135 | The card's `'none'` guard holds for every label with an action and for every string outside the six emitted labels. Among the six it holds exactly for those the action panel has an action for. |
| `GestureDisplay.UnmappedStillDetected` | src/components/GestureDisplay.tsx:83-135 | A label other than `'none'` with no table entry still gets the ring, the confidence bar and the "detected" message, while the panel has no action for it. This is the one case where card and panel disagree. |
| `GestureDisplay.TitleNoGestureIffIdle` | src/components/GestureDisplay.tsx:99 | For the six detector labels, the heading is "No Gesture" iff the label is `'none'`. That is also iff the confidence bar and highlight guard is off. |
| `GestureDisplay.TitleCollision` | src/components/GestureDisplay.tsx:99 | The label `no_gesture` also gets the heading "No Gesture" while its confidence bar is shown. The equivalence does not extend to arbitrary strings. |
| `Pipeline.SimulatedStreamFires` | src/components/ActionPanel.tsx:60-65 | On the detector's round-robin stream, the panel fires at a position iff the label there is not `'none'`. |
| `Pipeline.SimulatedFireCount` | src/components/ActionPanel.tsx:60-65 | Over k round-robin labels, the panel speaks k − ⌊k/6⌋ times. |
| `Pipeline.DetectorDrivesPanel` | src/App.tsx:109 | The labels the hook picks, fed to the panel, make it speak once per pick, except each pick of `'none'`. The statement is about picks. While the hook stays mounted the picks are exactly the labels rendered (`GestureSource.StaysMounted`, `GestureSource.PublishedIsLastPick`). Picks after an unmount during loading are never published. |
| `Pipeline.ConfidenceNeverGates` | src/components/ActionPanel.tsx:4-7 | Two observation streams with the same labels and any confidences give the same dispatch state. |
| `Pipeline.BarShownIffConfident` | src/components/GestureDisplay.tsx:103 | In every reachable hook state, the confidence bar is shown iff the published confidence is non-zero. |

## Left out

- Real timers and delays are replaced by events. This covers the 2000 ms load wait, the
  2000 ms first delay, the 3000–7000 ms dwell and `clearTimeout`. The model orders events but
  does not time them.
- Floating point: confidence is a Dafny `real`, so rounding of `0.8 + Math.random() * 0.2` and
  of `Math.round(confidence * 100)` is not modelled.
- `speechSynthesis` and `console.log` are foreign side effects. A fire appends the action name
  to a log, which stands for the speech call. The speech rate, the volume and the
  availability check are not modelled.
- Icons of the action table (its descriptions are kept in the table; their rendering is markup), Tailwind class strings other than the colour
  family and shade, and the rest of the markup are left out.
- `Upper` maps only the ASCII letters. Non-ASCII case mapping of `toUpperCase` is not
  modelled, and it can change a string's length.
- The table is a finite map over its five keys. JavaScript property-lookup quirks such as a
  label `'constructor'` are not modelled.
- The `catch` branch of `loadModel` is not modelled, because nothing in the simulated load can
  throw.
- React details such as StrictMode's double effect runs, render batching and re-renders
  caused by unrelated state are not modelled. The dispatcher is a fold over the labels of
  successive renders, and repeated labels are harmless (`ActionDispatch.HoldFiresAtMostOnce`).
- Camera capture, the loading screen, the instructions panel, the theme toggle and the
  loading gate in `src/App.tsx` are presentation and are not part of this model.
