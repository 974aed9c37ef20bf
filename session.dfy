/** The state of `MyFirstGUI` that its event handlers update in place. Each handler is a method
    that changes the fields step by step as the source does, and is proved to leave exactly the
    state the matching transition of module Mirror describes. */
module Remote {
  import opened Types
  import opened Selection
  import Mirror

  class Session {
    var scenes: seq<string>
    var sceneSelection: set<nat>
    var sources: seq<string>
    var selected: set<nat>
    var studioMode: bool
    var pending: Option<MicAction>
    var stream: Status
    var streamEnabled: bool
    var rec: Status
    var recEnabled: bool
    var log: seq<Request>

    /** The fields as one value of the mirror. */
    function Snapshot(): Mirror.State
      reads this
    {
      Mirror.State(scenes, sceneSelection, sources, selected, studioMode, pending,
                   stream, streamEnabled, rec, recEnabled, log)
    }

    ghost predicate Valid()
      reads this
    {
      Mirror.Inv(Snapshot())
    }

    /** The fields `__init__` sets up before connecting: empty lists and set, studio mode off,
        no pending timer, both buttons showing `off`. */
    constructor ()
      ensures Valid() && Snapshot() == Mirror.Initial()
    {
      scenes, sceneSelection, sources, selected := [], {}, [], {};
      studioMode, pending := false, None;
      stream, streamEnabled, rec, recEnabled := Off, true, Off, true;
      log := [];
    }

    /** `fill_sources`: replace the rows, then select every rendered index, one at a time. */
    method FillSources(items: seq<Item>)
      requires Valid()
      modifies this
      ensures Valid()
      ensures Snapshot() == Mirror.FillSources(old(Snapshot()), items)
    {
      sources := Mirror.Names(items);
      for i := 0 to |items|
        invariant sources == Mirror.Names(items)
        invariant selected == old(selected) + set j: nat | j < i && items[j].render
        invariant scenes == old(scenes) && sceneSelection == old(sceneSelection)
        invariant studioMode == old(studioMode) && pending == old(pending) && log == old(log)
        invariant stream == old(stream) && streamEnabled == old(streamEnabled)
        invariant rec == old(rec) && recEnabled == old(recEnabled)
      {
        if items[i].render {
          selected := selected + {i};
        }
      }
    }

    /** `change_sources`: compute the diff of `selected` and the rows now highlighted, then issue
        one visibility request per entry; `selected` is not updated. */
    method ChangeSources(highlighted: set<nat>) returns (diff: seq<Toggle>)
      requires Valid()
      modifies this`log
      ensures Valid()
      ensures IsDiffOf(selected, highlighted, diff)
      ensures |diff| == |selected - highlighted| + |highlighted - selected|
      ensures Snapshot() == Mirror.ChangeSources(old(Snapshot()), diff)
    {
      diff := ComputeDiff(selected, highlighted);
      IssueRequests(diff);
    }

    /** The loop of `change_sources` that sends one `SetSourceRender` per diff entry. */
    method IssueRequests(diff: seq<Toggle>)
      modifies this`log
      ensures log == old(log) + Requests(sources, diff)
    {
      for k := 0 to |diff|
        invariant log == old(log) + Requests(sources, diff[..k])
      {
        assert diff[..k + 1] == diff[..k] + [diff[k]];
        log := log + [SetSourceRender(SourceName(sources, diff[k].index), diff[k].render)];
      }
      assert diff[..|diff|] == diff;
    }

    /** `change_scene`: find the first highlighted scene row; if there is one, ask the server to
        make that scene current. */
    method ChangeScene()
      requires Valid()
      modifies this`log
      ensures Valid()
      ensures Snapshot() == Mirror.ChangeScene(old(Snapshot()))
    {
      var i := 0;
      while i < |scenes| && i !in sceneSelection
        invariant i <= |scenes|
        invariant forall j :: 0 <= j < i ==> j !in sceneSelection
      {
        i := i + 1;
      }
      if i < |scenes| {
        assert i == Mirror.Lowest(sceneSelection);
        log := log + [SetCurrentScene(scenes[i])];
      } else {
        assert sceneSelection == {};
      }
    }

    /** `on_switchscenes`. */
    method OnSwitchScenes(scene: string, items: seq<Item>) returns (raised: Option<Error>)
      requires Valid()
      modifies this
      ensures Valid()
      ensures Mirror.SwitchScenes(old(Snapshot()), scene, items) == Mirror.Outcome(Snapshot(), raised)
    {
      if !studioMode {
        var k := IndexOf(scenes, scene);
        if k.None? {
          return Some(NotInList);
        }
        sceneSelection := {};
        sceneSelection := sceneSelection + {k.value};
        FillSources(items);
      }
      // cancel the pending timer, then start the one for this scene
      pending := None;
      pending := Some(Mirror.MicFor(scene));
      raised := None;
    }

    /** The pending timer fires and runs its mute or unmute. */
    method FirePending()
      requires Valid() && pending.Some?
      modifies this
      ensures Valid()
      ensures Snapshot() == Mirror.FirePending(old(Snapshot()))
    {
      log := log + [SetMicMute(pending.value == Mute)];
      log := log + [GetMicVolume];
      pending := None;
    }

    /** `on_previewscenechanged`. */
    method OnPreviewSceneChanged(scene: string, items: seq<Item>) returns (raised: Option<Error>)
      requires Valid()
      modifies this
      ensures Valid()
      ensures Mirror.PreviewSceneChanged(old(Snapshot()), scene, items) == Mirror.Outcome(Snapshot(), raised)
    {
      var k := IndexOf(scenes, scene);
      if k.None? {
        return Some(NotInList);
      }
      sceneSelection := sceneSelection + {k.value};
      FillSources(items);
      raised := None;
    }

    /** `on_addsource`; `sceneMatches` is the outcome of the scene guard. */
    method OnAddSource(sceneMatches: bool, name: string)
      requires Valid()
      modifies this
      ensures Valid()
      ensures Snapshot() == Mirror.AddSource(old(Snapshot()), sceneMatches, name)
    {
      if !sceneMatches {
        return;
      }
      sources := sources + [name];
      selected := selected + {|sources| - 1};
    }

    /** `on_delsource`: the row goes before the index is removed from `selected`, so a missing
        index raises with the row already gone. */
    method OnDelSource(sceneMatches: bool, name: string) returns (raised: Option<Error>)
      requires Valid()
      modifies this
      ensures Valid()
      ensures Mirror.DelSource(old(Snapshot()), sceneMatches, name) == Mirror.Outcome(Snapshot(), raised)
    {
      if !sceneMatches {
        return None;
      }
      var k := IndexOf(sources, name);
      if k.None? {
        return Some(NotInList);
      }
      sources := RemoveAt(sources, k.value);
      if k.value !in selected {
        return Some(NotInSet);
      }
      selected := selected - {k.value};
      raised := None;
    }

    /** `on_togglesource`. */
    method OnToggleSource(sceneMatches: bool, name: string, visible: bool) returns (raised: Option<Error>)
      requires Valid()
      modifies this
      ensures Valid()
      ensures Mirror.ToggleSource(old(Snapshot()), sceneMatches, name, visible) == Mirror.Outcome(Snapshot(), raised)
    {
      if !sceneMatches {
        return None;
      }
      var k := IndexOf(sources, name);
      if k.None? {
        return Some(NotInList);
      }
      if visible {
        selected := selected + {k.value};
      } else {
        if k.value !in selected {
          return Some(NotInSet);
        }
        selected := selected - {k.value};
      }
      raised := None;
    }

    /** `on_studio_mode_switched`. */
    method OnStudioModeSwitched(on: bool)
      requires Valid()
      modifies this
      ensures Valid()
      ensures Snapshot() == Mirror.StudioModeSwitched(old(Snapshot()), on)
    {
      studioMode := on;
    }

    /** `on_switchscenecoll`. */
    method OnSwitchSceneCollection()
      requires Valid()
      modifies this
      ensures Valid()
      ensures Snapshot() == Mirror.SceneCollectionChanged(old(Snapshot()))
    {
      scenes, sceneSelection := [], {};
      sources := [];
    }

    /** `on_streamstatus`. */
    method OnStreamStatus(s: Status)
      requires Valid()
      modifies this
      ensures Valid()
      ensures Snapshot() == Mirror.StreamStatus(old(Snapshot()), s)
    {
      stream := s;
      if s == Wait {
        streamEnabled := false;
      } else {
        streamEnabled := true;
      }
    }

    /** `on_recstatus`. */
    method OnRecStatus(s: Status)
      requires Valid()
      modifies this
      ensures Valid()
      ensures Snapshot() == Mirror.RecStatus(old(Snapshot()), s)
    {
      rec := s;
      if s == Wait {
        recEnabled := false;
      } else {
        recEnabled := true;
      }
    }

    /** The two handlers registered for a stream event, in the order they are registered. */
    method OnStreamEvent(e: StreamEvent)
      requires Valid()
      modifies this
      ensures Valid()
      ensures Snapshot() == Mirror.OnStreamEvent(old(Snapshot()), e)
    {
      var s := Mirror.EventStatus(e);
      OnStreamStatus(s);
      OnRecStatus(s);
    }

    /** `on_heartbeet`. */
    method OnHeartbeat(streaming: bool, recording: bool)
      requires Valid()
      modifies this
      ensures Valid()
      ensures Snapshot() == Mirror.Heartbeat(old(Snapshot()), streaming, recording)
    {
      if streaming {
        OnStreamStatus(On);
      } else {
        OnStreamStatus(Off);
      }
      if recording {
        OnRecStatus(On);
      } else {
        OnRecStatus(Off);
      }
    }
  }
}
