/** The client-side mirror of the server's scenes, sources and stream status, as a value,
    with one transition per event handler of `MyFirstGUI`. The `Session` class in module
    Remote carries out these transitions in place; the lemmas here are about them. */
module Mirror {
  import opened Types
  import opened Selection

  /** The scene whose activation schedules "unmute the microphone". */
  const TriggerScene: string := "Game"

  datatype State = State(
    scenes: seq<string>,        // rows of the scene listbox
    sceneSelection: set<nat>,   // highlighted rows of the scene listbox
    sources: seq<string>,       // rows of the source listbox
    selected: set<nat>,         // `selected_sources`: indices believed visible, never renumbered
    studioMode: bool,
    pending: Option<MicAction>, // the action of the live `tmp_timer`, if any
    stream: Status,
    streamEnabled: bool,
    rec: Status,
    recEnabled: bool,
    log: seq<Request>)          // requests issued so far, oldest first

  /** The state a handler leaves, and the exception it raised, if any. */
  datatype Outcome = Outcome(state: State, raised: Option<Error>)

  /** What every handler keeps: highlighted scene rows exist, and a button is
      disabled exactly while its status is `Wait`. */
  ghost predicate Inv(m: State)
  {
    && (forall k :: k in m.sceneSelection ==> k < |m.scenes|)
    && m.streamEnabled == (m.stream != Wait)
    && m.recEnabled == (m.rec != Wait)
  }

  /** The mirror before any event: empty lists, studio mode off, no pending action, buttons off. */
  function Initial(): (m: State)
    ensures Inv(m) && m.scenes == [] && m.sceneSelection == {} && m.sources == [] && m.selected == {}
    ensures !m.studioMode && m.pending == None && m.log == []
    ensures m.stream == Off && m.streamEnabled && m.rec == Off && m.recEnabled
  {
    State([], {}, [], {}, false, None, Off, true, Off, true, [])
  }

  function Names(items: seq<Item>): seq<string>
  {
    seq(|items|, i requires 0 <= i < |items| => items[i].name)
  }

  function Rendered(items: seq<Item>): set<nat>
  {
    set i: nat | i < |items| && items[i].render
  }

  /** `fill_sources`: the source list becomes the given names in order, and every rendered
      index joins `selected`; indices already there stay, even past the end of the new list. */
  function FillSources(m: State, items: seq<Item>): (r: State)
    ensures |r.sources| == |items|
    ensures forall i :: 0 <= i < |items| ==> r.sources[i] == items[i].name
    ensures forall i: nat :: i in r.selected <==> i in m.selected || (i < |items| && items[i].render)
    ensures r.(sources := m.sources, selected := m.selected) == m
    ensures Inv(m) ==> Inv(r)
  {
    m.(sources := Names(items), selected := m.selected + Rendered(items))
  }

  /** Filling the same sources twice is the same as filling them once. */
  lemma FillSourcesIdempotent(m: State, items: seq<Item>)
    ensures FillSources(FillSources(m, items), items) == FillSources(m, items)
  {
    assert FillSources(m, items).selected + Rendered(items) == FillSources(m, items).selected;
  }

  /** The selected set matches the rendered sources after a fill exactly when every index it
      held before was rendered; otherwise stale indices survive. */
  lemma FillSourcesExactIff(m: State, items: seq<Item>)
    ensures FillSources(m, items).selected == Rendered(items) <==> m.selected <= Rendered(items)
  {
  }

  /** The requests `change_sources` issues for a diff, and the state they leave: only the log
      grows, `selected` itself is left as it was. */
  function ChangeSources(m: State, diff: seq<Toggle>): (r: State)
    ensures |r.log| == |m.log| + |diff| && r.log[..|m.log|] == m.log
    ensures forall k :: 0 <= k < |diff| ==>
      r.log[|m.log| + k] == SetSourceRender(SourceName(m.sources, diff[k].index), diff[k].render)
    ensures r.(log := m.log) == m
  {
    m.(log := m.log + Requests(m.sources, diff))
  }

  /** The lowest index of a non-empty set: the first row `curselection()` reports. */
  ghost function Lowest(s: set<nat>): (r: nat)
    requires s != {}
    ensures r in s && forall j :: j in s ==> r <= j
    decreases s
  {
    var x :| x in s;
    if s == {x} then x
    else
      var y := Lowest(s - {x});
      assert forall j :: j in s ==> j == x || j in s - {x};
      if x < y then x else y
  }

  /** `change_scene`: nothing when no scene row is highlighted; otherwise one request to make
      the first highlighted scene current. */
  ghost function ChangeScene(m: State): (r: State)
    requires Inv(m)
    ensures m.sceneSelection == {} ==> r == m
    ensures m.sceneSelection != {} ==>
      exists k :: k in m.sceneSelection && (forall j :: j in m.sceneSelection ==> k <= j)
        && r == m.(log := m.log + [SetCurrentScene(m.scenes[k])])
  {
    if m.sceneSelection == {} then m
    else m.(log := m.log + [SetCurrentScene(m.scenes[Lowest(m.sceneSelection)])])
  }

  /** The action scheduled after a switch to the named scene. */
  function MicFor(scene: string): MicAction
  {
    if scene == TriggerScene then Unmute else Mute
  }

  /** `on_switchscenes`: outside studio mode the scene row of the event is highlighted alone and
      the sources are refilled (an absent scene raises and changes nothing); in every successful
      case the pending action is replaced by the one for the new scene. */
  function SwitchScenes(m: State, scene: string, items: seq<Item>): (r: Outcome)
    ensures r.raised.Some? <==> !m.studioMode && scene !in m.scenes
    ensures r.raised.Some? ==> r.raised == Some(NotInList) && r.state == m
    ensures r.raised.None? ==> r.state.pending == Some(if scene == TriggerScene then Unmute else Mute)
    ensures m.studioMode ==> r.state == m.(pending := r.state.pending)
    ensures !m.studioMode && r.raised.None? ==>
      exists k: nat :: k < |m.scenes| && m.scenes[k] == scene && scene !in m.scenes[..k]
        && r.state == FillSources(m.(sceneSelection := {k}), items).(pending := r.state.pending)
    ensures Inv(m) ==> Inv(r.state)
  {
    if !m.studioMode then
      match IndexOf(m.scenes, scene)
      case None => Outcome(m, Some(NotInList))
      case Some(k) =>
        Outcome(FillSources(m.(sceneSelection := {k}), items).(pending := Some(MicFor(scene))), None)
    else Outcome(m.(pending := Some(MicFor(scene))), None)
  }

  /** The pending timer fires: the scheduled mute or unmute is requested, the microphone volume
      is read back, and nothing is pending any more. */
  function FirePending(m: State): (r: State)
    requires m.pending.Some?
    ensures r.pending == None
    ensures r.log == m.log + [SetMicMute(m.pending.value == Mute), GetMicVolume]
    ensures r.(pending := m.pending, log := m.log) == m
  {
    m.(pending := None, log := m.log + [SetMicMute(m.pending.value == Mute), GetMicVolume])
  }

  /** Debounce: of two successful scene switches, only the second one's action is left to fire,
      and firing it requests exactly that action. */
  lemma DebounceLastWins(m: State, a: string, itemsA: seq<Item>, b: string, itemsB: seq<Item>)
    requires SwitchScenes(m, a, itemsA).raised.None?
    requires SwitchScenes(SwitchScenes(m, a, itemsA).state, b, itemsB).raised.None?
    ensures var s := SwitchScenes(SwitchScenes(m, a, itemsA).state, b, itemsB).state;
      s.pending == Some(MicFor(b))
      && FirePending(s).log == s.log + [SetMicMute(b != TriggerScene), GetMicVolume]
  {
  }

  /** After a successful switch outside studio mode, `change_scene` would ask for that same scene. */
  lemma SwitchThenChangeScene(m: State, scene: string, items: seq<Item>)
    requires Inv(m) && !m.studioMode && scene in m.scenes
    ensures var s := SwitchScenes(m, scene, items).state;
      ChangeScene(s).log == s.log + [SetCurrentScene(scene)]
  {
    var s := SwitchScenes(m, scene, items).state;
    var k := IndexOf(m.scenes, scene).value;
    assert s.sceneSelection == {k} && s.scenes == m.scenes;
    assert Lowest(s.sceneSelection) == k;
  }

  /** `on_previewscenechanged`: regardless of studio mode, the event's scene row is highlighted
      in addition to the rows already highlighted, and the sources are refilled; an absent scene
      raises and changes nothing. */
  function PreviewSceneChanged(m: State, scene: string, items: seq<Item>): (r: Outcome)
    ensures r.raised.Some? <==> scene !in m.scenes
    ensures r.raised.Some? ==> r.raised == Some(NotInList) && r.state == m
    ensures r.raised.None? ==>
      exists k: nat :: k < |m.scenes| && m.scenes[k] == scene && scene !in m.scenes[..k]
        && r.state == FillSources(m.(sceneSelection := m.sceneSelection + {k}), items)
    ensures Inv(m) ==> Inv(r.state)
  {
    match IndexOf(m.scenes, scene)
    case None => Outcome(m, Some(NotInList))
    case Some(k) => Outcome(FillSources(m.(sceneSelection := m.sceneSelection + {k}), items), None)
  }

  /** `on_addsource`: when the event's scene is the one shown, the name is appended and its new
      index is selected; otherwise nothing changes. */
  function AddSource(m: State, sceneMatches: bool, name: string): (r: State)
    ensures !sceneMatches ==> r == m
    ensures sceneMatches ==>
      && |r.sources| == |m.sources| + 1
      && r.sources[..|m.sources|] == m.sources
      && r.sources[|m.sources|] == name
      && r.selected == m.selected + {|m.sources|}
      && r.(sources := m.sources, selected := m.selected) == m
    ensures Inv(m) ==> Inv(r)
  {
    if !sceneMatches then m
    else m.(sources := m.sources + [name], selected := m.selected + {|m.sources|})
  }

  /** `on_delsource`: when the event's scene is the one shown, the row at the first index of the
      name is deleted and that index leaves `selected`; later indices are not renumbered. An
      absent name raises before any change; an unselected index raises after the row is gone. */
  function DelSource(m: State, sceneMatches: bool, name: string): (r: Outcome)
    ensures !sceneMatches ==> r == Outcome(m, None)
    ensures sceneMatches && name !in m.sources ==> r == Outcome(m, Some(NotInList))
    ensures sceneMatches && name in m.sources ==>
      var k := IndexOf(m.sources, name).value;
      && r.state.sources == DeleteFirst(m.sources, name)
      && (r.raised == None <==> k in m.selected)
      && (r.raised.Some? ==> r.raised == Some(NotInSet) && r.state.selected == m.selected)
      && (forall j: nat :: j != k ==> (j in r.state.selected <==> j in m.selected))
      && k !in r.state.selected
      && r.state.(sources := m.sources, selected := m.selected) == m
    ensures Inv(m) ==> Inv(r.state)
  {
    if !sceneMatches then Outcome(m, None)
    else match IndexOf(m.sources, name)
      case None => Outcome(m, Some(NotInList))
      case Some(k) =>
        var m1 := m.(sources := RemoveAt(m.sources, k));
        if k in m.selected then Outcome(m1.(selected := m.selected - {k}), None)
        else Outcome(m1, Some(NotInSet))
  }

  /** Adding a new name and then deleting it restores the source list; the selected set loses
      the index the added row had, even if that index was selected (stale) before. */
  lemma AddThenDelete(m: State, name: string)
    requires name !in m.sources
    ensures DelSource(AddSource(m, true, name), true, name)
      == Outcome(m.(selected := m.selected - {|m.sources|}), None)
  {
    var a := AddSource(m, true, name);
    assert a.sources[|m.sources|] == name;
    assert IndexOf(a.sources, name) == Some(|m.sources|);
    assert RemoveAt(a.sources, |m.sources|) == m.sources;
  }

  /** Deleting two different names leaves the same source list in either order, whether or not
      either deletion raised on the selected set. */
  lemma DeleteSourcesCommute(m: State, a: string, b: string)
    requires a != b && a in m.sources && b in m.sources
    ensures var ab := DelSource(DelSource(m, true, a).state, true, b).state;
      var ba := DelSource(DelSource(m, true, b).state, true, a).state;
      ab.sources == ba.sources
  {
    DeleteFirstCommutes(m.sources, a, b);
  }

  /** Adding one name and deleting a different one leaves the same source list, and the same
      exception, in either order. */
  lemma AddDeleteCommute(m: State, a: string, b: string)
    requires a != b
    ensures var ab := DelSource(AddSource(m, true, a), true, b);
      var ba := DelSource(m, true, b);
      && ab.state.sources == AddSource(ba.state, true, a).sources
      && ab.raised == ba.raised
  {
    var m1 := m.(sources := m.sources + [a], selected := m.selected + {|m.sources|});
    assert AddSource(m, true, a) == m1;
    IndexOfAppend(m.sources, a, b);
    match IndexOf(m.sources, b)
    case None =>
      assert DelSource(m1, true, b) == Outcome(m1, Some(NotInList));
      assert DelSource(m, true, b) == Outcome(m, Some(NotInList));
    case Some(k) =>
      assert k < |m.sources| && (k in m1.selected <==> k in m.selected);
      var r1 := RemoveAt(m1.sources, k);
      assert r1 == RemoveAt(m.sources, k) + [a];
      assert DelSource(m1, true, b).state.sources == r1;
      assert DelSource(m, true, b).state.sources == RemoveAt(m.sources, k);
  }

  /** On `selected_sources` the two orders differ: with source b selected, adding a and then
      deleting b leaves index 1 selected, while deleting b and then adding a leaves index 0. */
  lemma AddDeleteOrderMatters()
    ensures var m := Initial().(sources := ["b"], selected := {0});
      && DelSource(AddSource(m, true, "a"), true, "b").state.selected == {1}
      && AddSource(DelSource(m, true, "b").state, true, "a").selected == {0}
  {
    var m := Initial().(sources := ["b"], selected := {0});
    assert IndexOf(m.sources + ["a"], "b") == Some(0);
    assert IndexOf(m.sources, "b") == Some(0);
  }

  /** Additions append at the end, so two additions in a different order give different lists. */
  lemma AddOrderMatters(m: State, a: string, b: string)
    requires a != b
    ensures AddSource(AddSource(m, true, a), true, b).sources
      != AddSource(AddSource(m, true, b), true, a).sources
  {
    var ab := AddSource(AddSource(m, true, a), true, b).sources;
    assert ab[|m.sources|] == a;
  }

  /** Because indices are not renumbered, the order of two deletions shows: with sources a, b
      both selected, deleting a then b raises on the selected set, deleting b then a does not. */
  lemma DeleteOrderMatters()
    ensures var m := Initial().(sources := ["a", "b"], selected := {0, 1});
      && DelSource(DelSource(m, true, "a").state, true, "b").raised == Some(NotInSet)
      && DelSource(DelSource(m, true, "b").state, true, "a").raised == None
  {
    var m := Initial().(sources := ["a", "b"], selected := {0, 1});
    assert IndexOf(m.sources, "a") == Some(0);
    assert IndexOf(m.sources, "b") == Some(1);
    assert IndexOf(["b"], "b") == Some(0);
    assert IndexOf(["a"], "a") == Some(0);
  }

  /** Because `selected` is not renumbered, its indices stop naming the rows after a deletion,
      and the requests of `change_sources` then miss their source: with sources a, b, c all
      selected, deleting a leaves rows b, c and indices {1, 2}; highlighting only row 1 (c)
      yields the single request to hide the name "" past the end, and nothing hides b. */
  lemma StaleIndexAfterDelete(diff: seq<Toggle>)
    requires IsDiffOf({1, 2}, {1}, diff)
    requires |diff| == |{1, 2} - {1}| + |{1} - {1, 2}|
    ensures var m := Initial().(sources := ["a", "b", "c"], selected := {0, 1, 2});
      var d := DelSource(m, true, "a");
      && d == Outcome(m.(sources := ["b", "c"], selected := {1, 2}), None)
      && ChangeSources(d.state, diff).log == [SetSourceRender("", false)]
  {
    var m := Initial().(sources := ["a", "b", "c"], selected := {0, 1, 2});
    assert IndexOf(m.sources, "a") == Some(0);
    assert RemoveAt(m.sources, 0) == ["b", "c"];
    assert {1, 2} - {1} == {2};
    assert {1} - {1, 2} == {};
    assert Toggle(2, false) in diff;
    assert diff == [Toggle(2, false)];
  }

  /** `on_togglesource`: when the event's scene is the one shown, the name's first index joins
      `selected` if the item became visible and leaves it if not; an absent name raises, and so
      does hiding an index that is not selected, both without change. */
  function ToggleSource(m: State, sceneMatches: bool, name: string, visible: bool): (r: Outcome)
    ensures !sceneMatches ==> r == Outcome(m, None)
    ensures sceneMatches && name !in m.sources ==> r == Outcome(m, Some(NotInList))
    ensures sceneMatches && name in m.sources ==>
      var k := IndexOf(m.sources, name).value;
      && m.sources[k] == name
      && (visible ==> r == Outcome(m.(selected := m.selected + {k}), None))
      && (!visible && k in m.selected ==> r == Outcome(m.(selected := m.selected - {k}), None))
      && (!visible && k !in m.selected ==> r == Outcome(m, Some(NotInSet)))
    ensures Inv(m) ==> Inv(r.state)
  {
    if !sceneMatches then Outcome(m, None)
    else match IndexOf(m.sources, name)
      case None => Outcome(m, Some(NotInList))
      case Some(k) =>
        if visible then Outcome(m.(selected := m.selected + {k}), None)
        else if k in m.selected then Outcome(m.(selected := m.selected - {k}), None)
        else Outcome(m, Some(NotInSet))
  }

  /** The same visibility event twice leaves the state it left once; a repeated show is quiet,
      a repeated hide raises on the selected set. */
  lemma ToggleTwice(m: State, sceneMatches: bool, name: string, visible: bool)
    requires ToggleSource(m, sceneMatches, name, visible).raised.None?
    ensures var once := ToggleSource(m, sceneMatches, name, visible).state;
      var twice := ToggleSource(once, sceneMatches, name, visible);
      && twice.state == once
      && (twice.raised == Some(NotInSet) <==> sceneMatches && !visible)
      && (twice.raised == None <==> !sceneMatches || visible)
  {
  }

  /** Showing a source whose index was not selected, then hiding it, restores the selected set. */
  lemma ShowThenHide(m: State, name: string)
    requires name in m.sources && IndexOf(m.sources, name).value !in m.selected
    ensures var shown := ToggleSource(m, true, name, true).state;
      ToggleSource(shown, true, name, false) == Outcome(m, None)
  {
    var k := IndexOf(m.sources, name).value;
    assert m.selected + {k} - {k} == m.selected;
  }

  /** `on_studio_mode_switched`: only the flag changes. */
  function StudioModeSwitched(m: State, on: bool): (r: State)
    ensures r.studioMode == on && r.(studioMode := m.studioMode) == m
    ensures Inv(m) ==> Inv(r)
  {
    m.(studioMode := on)
  }

  /** `on_switchscenecoll`: both listboxes are emptied (with their highlights); `selected` is
      not cleared and the pending action is not cancelled. */
  function SceneCollectionChanged(m: State): (r: State)
    ensures r.scenes == [] && r.sceneSelection == {} && r.sources == []
    ensures r.selected == m.selected && r.pending == m.pending && r.log == m.log
    ensures r.(scenes := m.scenes, sceneSelection := m.sceneSelection, sources := m.sources) == m
    ensures Inv(m) ==> Inv(r)
  {
    m.(scenes := [], sceneSelection := {}, sources := [])
  }

  /** `on_streamstatus`: the stream button shows the status and is disabled exactly while it is `Wait`. */
  function StreamStatus(m: State, s: Status): (r: State)
    ensures r.stream == s && (r.streamEnabled <==> s != Wait)
    ensures r.(stream := m.stream, streamEnabled := m.streamEnabled) == m
    ensures Inv(m) ==> Inv(r)
  {
    m.(stream := s, streamEnabled := s != Wait)
  }

  /** `on_recstatus`: the same for the record button. */
  function RecStatus(m: State, s: Status): (r: State)
    ensures r.rec == s && (r.recEnabled <==> s != Wait)
    ensures r.(rec := m.rec, recEnabled := m.recEnabled) == m
    ensures Inv(m) ==> Inv(r)
  {
    m.(rec := s, recEnabled := s != Wait)
  }

  /** The status each stream event announces. */
  function EventStatus(e: StreamEvent): (s: Status)
    ensures s == Wait <==> e == StreamStarting || e == StreamStopping
    ensures s == On <==> e == StreamStarted
    ensures s == Off <==> e == StreamStopped
  {
    match e
    case StreamStarting => Wait
    case StreamStopping => Wait
    case StreamStarted => On
    case StreamStopped => Off
  }

  /** A stream event runs both handlers registered for it: the stream handler, then the record
      handler, which is registered on the stream events too. So after any stream event the record
      button shows what the stream button shows, and both are disabled exactly while a start or
      stop is in progress. */
  function OnStreamEvent(m: State, e: StreamEvent): (r: State)
    ensures r.stream == EventStatus(e) && r.rec == EventStatus(e)
    ensures (r.streamEnabled <==> e == StreamStarted || e == StreamStopped) && r.recEnabled == r.streamEnabled
    ensures r.(stream := m.stream, streamEnabled := m.streamEnabled, rec := m.rec, recEnabled := m.recEnabled) == m
    ensures Inv(m) ==> Inv(r)
  {
    RecStatus(StreamStatus(m, EventStatus(e)), EventStatus(e))
  }

  function OnOff(b: bool): Status
  {
    if b then On else Off
  }

  /** `on_heartbeet`: the stream and record statuses are read off the two flags of the heartbeat. */
  function Heartbeat(m: State, streaming: bool, recording: bool): (r: State)
    ensures (r.stream == On <==> streaming) && (r.stream == Off <==> !streaming)
    ensures (r.rec == On <==> recording) && (r.rec == Off <==> !recording)
    ensures r.streamEnabled && r.recEnabled
    ensures r.(stream := m.stream, streamEnabled := m.streamEnabled, rec := m.rec, recEnabled := m.recEnabled) == m
    ensures Inv(m) ==> Inv(r)
  {
    RecStatus(StreamStatus(m, OnOff(streaming)), OnOff(recording))
  }
}
