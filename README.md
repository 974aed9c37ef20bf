# OBS Remote: the state mirror and its event handlers

OBS Remote is a small Tkinter client for the OBS WebSocket control protocol. It keeps a
local mirror of the server's state: the scene list and which scene is highlighted, the
sources of the shown scene, the set of source indices it believes visible
(`selected_sources`), the studio-mode flag, and the stream and record statuses. Server
events update the mirror through one handler each. A scene switch schedules a delayed
microphone mute or unmute, and a new switch replaces any action still pending. When the
operator changes the highlighted sources, the client diffs the new selection against
`selected_sources` and sends one `SetSourceRender` request per difference. A
self-re-arming timer (`RepeatedTimer`) polls the audio levels.

This project models that state and those handlers in Dafny:

- `types.dfy` (module `Types`): statuses, the microphone action, stream events,
  requests, and the two exceptions handlers can raise. `NotInList` stands for the
  `ValueError` of `index` on the tuple of rows that `Listbox.get(0, END)` returns. `NotInSet` stands for the `KeyError` of `set.remove`.
- `selection.dfy` (module `Selection`): first-index lookup, row deletion and the
  selection differencer. `ComputeDiff` is a method with loops. `Apply` reads the diff at
  the level of indices: the set of row indices visible once the toggles are carried out.
  It describes what the server shows only while `selected_sources` holds exactly the
  visible rows, every index is below the number of rows, and the source names are
  distinct. Otherwise a request can name another source, or the empty name
  (`StaleIndexAfterDelete`).
- `mirror.dfy` (module `Mirror`): the whole mirror as one value `State`, with one pure
  transition per handler and the lemmas about them.
- `session.dfy` (module `Remote`): class `Session`. Its fields are the mirror, and its
  methods update them in place as the handlers do. Each handler method's postcondition
  equates the new `Snapshot()` with the `Mirror` transition of the old one. Each handler
  method also keeps `Valid()`: every highlighted scene row exists, and a button is disabled exactly
  while its status is `Wait`.
- `timer.dfy` (module `Timer`): class `RepeatedTimer`, a flag machine over `is_running`
  with whether a one-shot timer is armed and the number of running callbacks.

Requests sent with `ws.call` are appended to the session's `log`. The scheduled
`threading.Timer` of a scene switch is the `pending` slot. When it fires (`FirePending`),
the log gets the mute or unmute request and the volume read-back that `do_mic_mute` and
`do_mic_unmute` issue.

Notes on how the code behaves, which the model follows:

- The scene guard of `on_addsource`, `on_delsource` and `on_togglesource` compares the
  event's scene name (a string) with `curselection()` (a tuple). The two are never equal,
  so as written these handlers always return at once. The model takes the guard's
  outcome as the input `sceneMatches`. `sceneMatches == false` is the behaviour as
  written. `true` is the path the code would take if the guard matched.
- `fill_sources` never clears `selected_sources`, so indices from an earlier scene stay
  in it, even past the end of the new list (`FillSourcesExactIff`). So `selected_sources`
  is never recomputed from the new sources.
- `change_sources` does not update `selected_sources`, so it keeps the old selection after
  the requests are sent.
- `on_delsource` does not renumber later indices (`DeleteOrderMatters`). It deletes the
  row before `set.remove` can raise, so on that error the row is already gone.
- Hiding the same source twice raises `KeyError` the second time (`ToggleTwice`). The
  state is the same as after one hide.
- Sources are appended at the end, so two additions in a different order give a
  different list (`AddOrderMatters`). Deletions of two different names commute on the
  list (`DeleteSourcesCommute`), and so do an addition and a deletion of different names
  (`AddDeleteCommute`). Neither commutes on `selected_sources`, because its indices are
  not renumbered (`DeleteOrderMatters`, `AddDeleteOrderMatters`).
- The record-button handlers are registered on the `Stream*` events, so after every stream
  event the record button shows what the stream button shows (`OnStreamEvent`). A
  heartbeat sets each from its own flag, so they can differ again.
- `on_previewscenechanged` highlights the preview scene without clearing the previously
  highlighted row. The scene highlight is therefore a set, and `change_scene` uses its
  lowest row, which is `curselection()[0]`.
- `RepeatedTimer._run` re-arms before it calls the callback. So a slow callback can
  still be running when the next one starts (`Run` ensures
  `inFlight == old(inFlight) + 1` whatever `inFlight` was), so nothing skips a cycle while
  the previous callback runs.
- The delayed microphone action is scheduled with `Timer(1000, ...)`, which is 1000
  seconds. The model keeps only which action is pending, not the delay.
- For an index past the end, Tk's `Listbox.get` returns the empty string. Stale indices
  in `selected_sources` therefore produce `SetSourceRender("", false)` (`SourceName`).
- Python iterates a set in an order it does not promise. `ComputeDiff` leaves the order
  within the disables and within the enables open, and `ApplyDiff` shows that the order
  does not matter to the result.

## Model

| member | source | states |
|---|---|---|
| Selection.IndexOf | remote.py:381-383 | the first position holding the name, with no earlier occurrence; None exactly when the name is absent (where `index` raises) |
| Selection.IndexOfAppend | remote.py:381 | appending a different name to the rows leaves the first position of a name, or its absence, unchanged |
| Selection.RemoveAt | remote.py:382 | deleting one listbox row: one shorter, rows before kept, rows after shifted down by one |
| Selection.DeleteFirst | remote.py:381-382 | an element-by-element definition of deleting the first occurrence, equal to deleting the row at `IndexOf` |
| Selection.DeleteFirstCommutes | remote.py:381-382 | deleting the first occurrences of two different names gives the same list in either order |
| Selection.Requests | remote.py:308-312 | one `SetSourceRender` per diff entry, in diff order, naming the row's source (empty past the end) |
| Selection.ComputeDiff | remote.py:305-309 | the diff is exactly the symmetric difference of the old and new selection: old-only indices disabled, new-only enabled, each once, disables first, of size the sum of the two set differences |
| Selection.ApplyDistinct | remote.py:311-312 | on row indices: toggles that touch each index once leave `visible - disabled + enabled`, whatever their order |
| Selection.ApplyDiff | remote.py:305-312 | on row indices: carrying out a diff of `prev` and `next`, in any order, turns the visible index set `prev` into exactly `next` |
| Selection.DeselectOneOfThree | remote.py:305-312 | with rows 0,1,2 selected and row 1 deselected, the diff is the single entry "hide row 1" |
| Mirror.Initial | remote.py:147-152 | the state before any event: empty scene and source lists, no highlighted scene, empty selected set and log, studio mode off, nothing pending, both statuses `off` with their buttons enabled; the invariant holds |
| Mirror.FillSources | remote.py:245-251 | the rows become the item names in order; an index is selected afterwards iff it was before or its item renders; nothing else changes |
| Mirror.FillSourcesIdempotent | remote.py:245-251 | filling the same items twice equals filling them once |
| Mirror.FillSourcesExactIff | remote.py:245-251 | after a fill the selected set equals the rendered indices iff every index selected before was rendered (stale indices survive) |
| Mirror.ChangeSources | remote.py:305-312 | only the log changes: it grows by one visibility request per diff entry, in order, and `selected_sources` is untouched |
| Mirror.Lowest | remote.py:300 | the smallest element of a non-empty set, which `curselection()[0]` yields |
| Mirror.ChangeScene | remote.py:298-303 | no highlighted scene: no change; otherwise exactly one `SetCurrentScene` for the lowest highlighted row |
| Mirror.SwitchScenes | remote.py:336-358 | raises iff studio mode is off and the scene is absent, then changing nothing; otherwise leaves exactly one pending action, unmute for "Game" and mute otherwise; outside studio mode the scene's first row alone is highlighted and the sources refilled; in studio mode only the pending action changes; keeps the invariant |
| Mirror.FirePending | remote.py:328-334 | firing requests the scheduled mute or unmute, then reads the volume, and clears the pending slot |
| Mirror.DebounceLastWins | remote.py:349-358 | after two successful switches only the second switch's action is pending, and firing requests exactly that action |
| Mirror.SwitchThenChangeScene | remote.py:336-342 | after a successful switch outside studio mode, `change_scene` would request the switched-to scene |
| Mirror.PreviewSceneChanged | remote.py:360-365 | raises iff the scene is absent, then changing nothing; otherwise adds the scene's first row to the highlighted rows (in any mode) and refills the sources |
| Mirror.AddSource | remote.py:367-375 | guard fails: no change; otherwise the list grows by exactly the name at the end, earlier rows are unchanged, and the new last index is selected |
| Mirror.DelSource | remote.py:377-385 | guard fails: no change; absent name: raises, no change; otherwise the first row with the name is deleted, that index leaves the set, no other index moves, and raising iff the index was not selected (row already deleted) |
| Mirror.AddThenDelete | remote.py:367-385 | adding a new name then deleting it restores the rows and drops the added row's index from the set |
| Mirror.DeleteSourcesCommute | remote.py:377-385 | deleting two different names leaves the same rows in either order |
| Mirror.StaleIndexAfterDelete | remote.py:305-312 | with sources a, b, c all selected, deleting a leaves rows b, c and indices {1, 2}; then highlighting only row 1 makes `change_sources` request hiding the empty name, and nothing hides b |
| Mirror.AddDeleteCommute | remote.py:367-385 | adding one name and deleting a different one leaves the same rows and raises the same exception in either order |
| Mirror.AddDeleteOrderMatters | remote.py:367-385 | with b selected, adding a then deleting b leaves index 1 selected, while deleting b then adding a leaves index 0 |
| Mirror.AddOrderMatters | remote.py:367-375 | adding two different names in a different order gives different rows |
| Mirror.DeleteOrderMatters | remote.py:381-383 | with sources a, b both selected, deleting a then b raises on the set, b then a does not, because indices are not renumbered |
| Mirror.ToggleSource | remote.py:387-398 | guard fails: no change; absent name raises; visible adds the first index of the name; hidden removes it, or raises without change when it is not selected |
| Mirror.ToggleTwice | remote.py:387-398 | applying the same visibility event twice leaves the state of one application; the second raises iff it hides |
| Mirror.ShowThenHide | remote.py:387-398 | showing an unselected source and hiding it again restores the state |
| Mirror.StudioModeSwitched | remote.py:400-401 | only the studio-mode flag changes, to the event's value |
| Mirror.SceneCollectionChanged | remote.py:403-405 | both lists and the scene highlight are emptied; selected set, pending action and log are kept |
| Mirror.StreamStatus | remote.py:407-414 | the stream status is set and its button is enabled iff the status is not `wait`; nothing else changes |
| Mirror.RecStatus | remote.py:416-423 | the record status is set and its button is enabled iff the status is not `wait`; nothing else changes |
| Mirror.EventStatus | remote.py:468-476 | Starting and Stopping map to `wait`, Started to `on`, Stopped to `off` |
| Mirror.OnStreamEvent | remote.py:468-476 | after any stream event both statuses are the event's status, both buttons are enabled iff it is Started or Stopped, nothing else changes, and the invariant is kept |
| Mirror.Heartbeat | remote.py:425-434 | stream status is `on` iff streaming and `off` otherwise, likewise record; both buttons enabled; nothing else changes |
| Remote.Session.constructor | remote.py:147-152 | the fields start as `Mirror.Initial` and satisfy `Valid` |
| Remote.Session.FillSources | remote.py:245-251 | the loop over the items leaves exactly `Mirror.FillSources` of the old state |
| Remote.Session.ChangeSources | remote.py:305-312 | returns a diff that is the symmetric difference of `selected_sources` and the highlighted rows, and appends exactly its requests to the log |
| Remote.Session.IssueRequests | remote.py:311-312 | the loop appends to the log exactly the diff's requests, in order |
| Remote.Session.ChangeScene | remote.py:298-303 | the scan for the first highlighted row issues exactly the request `Mirror.ChangeScene` describes |
| Remote.Session.OnSwitchScenes | remote.py:336-358 | state and exception are those of `Mirror.SwitchScenes`; keeps `Valid` |
| Remote.Session.FirePending | remote.py:328-334 | state is that of `Mirror.FirePending` |
| Remote.Session.OnPreviewSceneChanged | remote.py:360-365 | state and exception are those of `Mirror.PreviewSceneChanged` |
| Remote.Session.OnAddSource | remote.py:367-375 | state is that of `Mirror.AddSource` |
| Remote.Session.OnDelSource | remote.py:377-385 | state and exception are those of `Mirror.DelSource`, including the row deleted before the `KeyError` |
| Remote.Session.OnToggleSource | remote.py:387-398 | state and exception are those of `Mirror.ToggleSource` |
| Remote.Session.OnStudioModeSwitched | remote.py:400-401 | state is that of `Mirror.StudioModeSwitched` |
| Remote.Session.OnSwitchSceneCollection | remote.py:403-405 | state is that of `Mirror.SceneCollectionChanged` |
| Remote.Session.OnStreamStatus | remote.py:407-414 | state is that of `Mirror.StreamStatus` |
| Remote.Session.OnRecStatus | remote.py:416-423 | state is that of `Mirror.RecStatus` |
| Remote.Session.OnStreamEvent | remote.py:468-476 | runs the stream handler, then the record handler, with the event's status |
| Remote.Session.OnHeartbeat | remote.py:425-434 | state is that of `Mirror.Heartbeat` |
| Timer.RepeatedTimer.constructor | remote.py:13-20 | a new timer is running with exactly one one-shot timer armed and no callback running |
| Timer.RepeatedTimer.Start | remote.py:27-31 | no change when already running; otherwise running with one timer armed |
| Timer.RepeatedTimer.Run | remote.py:22-25 | the flag is cleared and set again, so a new timer is armed before the callback starts; one more callback is running, whatever number were running before |
| Timer.RepeatedTimer.CallbackReturns | remote.py:25 | a finished callback leaves the count of running callbacks |
| Timer.RepeatedTimer.Stop | remote.py:33-35 | the flag is cleared and no timer is armed; running callbacks are not interrupted |

## Left out

- Tkinter widgets and layout (`CustomFont_Button`, `CreateToolTip`, `StatusBar`,
  `make_ui`) and the glyph tables. These are rendering.
- The highlight of the source listbox. It is state: `change_sources` diffs
  `selected_sources` against it, and `fill_sources`, `on_addsource` and `on_togglesource`
  highlight rows as they add indices to `selected_sources`. The model has no field for
  it. `Session.ChangeSources` takes the highlighted rows as an input, and its contract
  holds for every such set. Two cases where the highlight and `selected_sources`
  diverge are therefore not captured. First, `delete(0, END)` in `fill_sources` and in
  `on_switchscenecoll` clears the
  highlight while stale indices stay selected. Second, a row deletion shifts the
  highlight with the rows, but the indices in `selected_sources` are not renumbered.
- The operator's click on the scene listbox. It replaces the scene highlight and fires
  `change_scene` through `<<ListboxSelect>>`. `Session.ChangeScene` reads the highlight
  as the event handlers (`on_switchscenes`, `on_previewscenechanged`) left it.
- The current-scene text field that `on_switchscenes` rewrites. It is display only.
- The status-bar text of `on_heartbeet` (fps, bitrate, dropped frames). It is float
  formatting for display.
- Logging setup and every `logger.debug` line. These are I/O.
- The transport: `connect`, `disconnect`, handler registration, `on_closing`, and the
  request/response decoding. `ws.call` is an append to the request log. Registration
  appears only as the pair of handlers `OnStreamEvent` runs.
- `init` and `init_scenes`: the fetch of the studio-mode flag and the scene list at
  connect time. They depend on server responses, which are not part of this model. No
  modelled handler fills `scenes`, so a `Session` built by its constructor never holds a
  scene row. The non-raising paths of `SwitchScenes`, `PreviewSceneChanged` and
  `ChangeScene` are covered by the `Mirror` lemmas over arbitrary states.
- Volume handling (`init_volume`, `load_volume_d`, `load_volume_m`, `change_volume_d`,
  `change_volume_m`, `command_m`, `command_d`) and `do_transition`. These are float
  arithmetic around remote calls. Of the microphone actions, only their two requests are
  logged (`FirePending`).
- Real timing and threads. A scheduled timer is the `pending` slot or the `armed` flag.
  Races between a timer thread and event delivery are not modelled, and neither is a
  timer that fires while it is being cancelled.
- `Remote.Session.OnAddSource`, `OnDelSource`, `OnToggleSource`: the scene guard is an
  input, not the string-against-tuple comparison the source makes. That comparison always
  fails, so the source always takes the `sceneMatches == false` path.
- `Selection.ApplyDiff`, `Selection.ApplyDistinct`: they speak of row indices, not of the
  sources the server shows. The requests carry names read off the current rows, and
  `selected_sources` is not renumbered after a deletion. The model proves no statement
  about which named sources end up visible; `StaleIndexAfterDelete` shows a case where
  the indices and the names disagree.
- The 1000-second delay of the scheduled microphone action. Only which action is pending
  is modelled.
