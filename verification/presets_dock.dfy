/** The presets dock of `ptz-presets-dock.cpp`: a 3x3 grid of preset
    buttons, a single pending-request slot written by button presses and
    hotkeys and drained by a polling thread, the preset-name length limit,
    and its own copy of the registries and of the active-source resolver. */
module PresetsDock {
  import opened Common
  import opened Registry
  import opened Resolver

  /** Number of preset name properties (`PROP_NPRESETS`). */
  const PresetCount: nat := 9

  /** `MAX_PRESET_NAME_LENGTH`. */
  const MaxPresetNameLength: nat := 12

  /** The empty slot. */
  const NoPress: int := -1

  /** The static `context`: the resolved target, the grid shape and the
      pending preset (`button_pressed`, -1 when empty). */
  datatype Dock = Dock(target: Target, nrows: int, ncols: int, pressed: int)

  /** The context together with the dock's own static registries. */
  datatype DockState = DockState(dock: Dock, reg: Registries)

  /** `ptz_presets_init`: the first call builds a 3x3 grid with an empty
      slot and a zero-filled target; later calls return early. */
  function Init(existing: Option<Dock>): (d: Dock)
    ensures existing.None? ==>
              && d.nrows * d.ncols == PresetCount
              && d.pressed == NoPress
              && d.target.recv == Null && d.target.source == Null
    ensures existing.Some? ==> d == existing.value
  {
    match existing
    case None => Dock(Target(Null, Null, EmptyText), 3, 3, NoPress)
    case Some(ctx) => ctx
  }

  /** A second initialisation is a no-op. */
  lemma InitIdempotent(existing: Option<Dock>)
    ensures Init(Some(Init(existing))) == Init(existing)
  {
  }

  /** Whether `ptz_preset_button_pressed` accepts a preset index. */
  predicate Accepts(d: Dock, index: int) {
    d.target.recv != Null && 0 < index <= d.nrows * d.ncols
  }

  /** `ptz_preset_button_pressed`: store an accepted index in the slot,
      overwriting any pending one; otherwise change nothing. */
  function ButtonPressed(d: Dock, index: int): (r: Dock)
    ensures Accepts(d, index) ==> r.pressed == index
    ensures !Accepts(d, index) ==> r == d
    ensures r.target == d.target && r.nrows == d.nrows && r.ncols == d.ncols
  {
    if Accepts(d, index) then d.(pressed := index) else d
  }

  /** `ptz_presets_hotkey_function`: a key press behaves as a click on the
      button bound to the hotkey; a key release does nothing. */
  function HotkeyPressed(d: Dock, buttonIndex: int, pressed: bool): (r: Dock)
    ensures !pressed ==> r == d
    ensures pressed && Accepts(d, buttonIndex) ==> r.pressed == buttonIndex
    ensures pressed && !Accepts(d, buttonIndex) ==> r == d
  {
    if pressed then ButtonPressed(d, buttonIndex) else d
  }

  /** One iteration of `ptz_presets_thread`: with a receiver and a pending
      index, recall that preset once at speed 5 and empty the slot;
      otherwise do nothing (a pending index waits for a receiver). */
  function DrainStep(d: Dock): (r: (Dock, seq<NdiCall>))
    ensures d.target.recv != Null && d.pressed >= 0 ==>
              r.1 == [RecallPreset(d.target.recv, d.pressed, RecallSpeed)] && r.0.pressed == NoPress
    ensures !(d.target.recv != Null && d.pressed >= 0) ==> r.1 == [] && r.0 == d
    ensures r.0.target == d.target && r.0.nrows == d.nrows && r.0.ncols == d.ncols
  {
    if d.target.recv != Null && d.pressed >= 0 then
      (d.(pressed := NoPress), [RecallPreset(d.target.recv, d.pressed, RecallSpeed)])
    else
      (d, [])
  }

  /** `ptz_presets_property_modified`: a preset name longer than 12
      characters is stored back cut to its first 12 and the callback returns
      true; otherwise the settings are untouched and it returns false. A
      missing setting reads as the empty string. */
  function PropertyModified(settings: map<string, string>, property: string): (r: (map<string, string>, bool))
    ensures var value := Get(settings, property, "");
            && (r.1 <==> |value| > MaxPresetNameLength)
            && |Get(r.0, property, "")| <= MaxPresetNameLength
            && Get(r.0, property, "") <= value
            && (!r.1 ==> r.0 == settings)
            && (r.1 ==> |Get(r.0, property, "")| == MaxPresetNameLength)
    ensures forall p :: p != property ==> Get(r.0, p, "") == Get(settings, p, "")
    ensures r.0.Keys <= settings.Keys + {property}
  {
    var value := Get(settings, property, "");
    if |value| > MaxPresetNameLength then
      (Set(settings, property, value[..MaxPresetNameLength]), true)
    else
      (settings, false)
  }

  /** Applying the name limit twice gives the same settings as applying it
      once, and the second application reports no change. */
  lemma PropertyModifiedIdempotent(settings: map<string, string>, property: string)
    ensures var once := PropertyModified(settings, property).0;
            PropertyModified(once, property) == (once, false)
  {
  }

  /** `ptz_presets_set_dock_context`: recompute the target; the grid, the
      slot and the registries are untouched. */
  function SetDockContext(st: DockState, preview: Option<seq<SceneItem>>,
                          program: Option<seq<SceneItem>>): (r: DockState)
    ensures r.reg == st.reg
    ensures r.dock.pressed == st.dock.pressed
    ensures r.dock.nrows == st.dock.nrows && r.dock.ncols == st.dock.ncols
    ensures Consistent(r.dock.target)
    ensures r.dock.target.recv != Null ==>
              && r.dock.target.text.SourceName?
              && r.dock.target.recv == RecvOf(st.reg, r.dock.target.text.name)
              && r.dock.target.source == ReverseLookup(st.reg.names, r.dock.target.text.name)
  {
    st.(dock := st.dock.(target := Recompute(st.reg, preview, program)))
  }

  /** `ptz_presets_set_ndiname_recv_map`: register the receiver of a
      display name, then recompute the target. */
  function SetNdiNameRecvMap(st: DockState, name: string, recv: Ptr,
                             preview: Option<seq<SceneItem>>,
                             program: Option<seq<SceneItem>>): (r: DockState)
    ensures RecvOf(r.reg, name) == recv
    ensures forall n :: n != name ==> RecvOf(r.reg, n) == RecvOf(st.reg, n)
    ensures r.reg.names == st.reg.names
    ensures r.dock.target == Recompute(r.reg, preview, program)
    ensures r.dock.pressed == st.dock.pressed
  {
    SetDockContext(st.(reg := st.reg.(recvs := Set(st.reg.recvs, name, recv))), preview, program)
  }

  /** `ptz_presets_set_source_ndiname_map`: register the display name of a
      source; the target is not recomputed. */
  function SetSourceNdiNameMap(st: DockState, source: Ptr, name: string): (r: DockState)
    ensures NameOf(r.reg, source) == name
    ensures forall s :: s != source ==> NameOf(r.reg, s) == NameOf(st.reg, s)
    ensures r.reg.recvs == st.reg.recvs
    ensures r.dock == st.dock
  {
    st.(reg := st.reg.(names := Set(st.reg.names, source, name)))
  }

  /** `ptz_on_scene_changed` of the dock: only a preview-scene change
      recomputes the target. */
  function OnSceneChanged(st: DockState, event: FrontendEvent,
                          preview: Option<seq<SceneItem>>,
                          program: Option<seq<SceneItem>>): (r: DockState)
    ensures event.OtherFrontendEvent? ==> r == st
    ensures event.PreviewSceneChanged? ==>
              r.reg == st.reg && r.dock.pressed == st.dock.pressed && Consistent(r.dock.target)
  {
    match event
    case PreviewSceneChanged => SetDockContext(st, preview, program)
    case OtherFrontendEvent => st
  }

  /** A run of presses, in order. */
  function PressAll(d: Dock, presses: seq<int>): Dock
    decreases |presses|
  {
    if presses == [] then d else PressAll(ButtonPressed(d, presses[0]), presses[1..])
  }

  /** The last accepted index of a run of presses, or `fallback` when none
      is accepted: an independent reading of "the most recent request
      survives", scanning from the end. */
  function LastAccepted(d: Dock, presses: seq<int>, fallback: int): int
    decreases |presses|
  {
    if presses == [] then fallback
    else if Accepts(d, presses[|presses| - 1]) then presses[|presses| - 1]
    else LastAccepted(d, presses[..|presses| - 1], fallback)
  }

  lemma {:induction false} PressAllSnoc(d: Dock, presses: seq<int>, index: int)
    ensures PressAll(d, presses + [index]) == ButtonPressed(PressAll(d, presses), index)
    decreases |presses|
  {
    if presses == [] {
      assert [] + [index] == [index];
      assert [index][1..] == [];
    } else {
      assert (presses + [index])[1..] == presses[1..] + [index];
      PressAllSnoc(ButtonPressed(d, presses[0]), presses[1..], index);
    }
  }

  lemma {:induction false} PressAllFrame(d: Dock, presses: seq<int>)
    ensures PressAll(d, presses).target == d.target
    ensures PressAll(d, presses).nrows == d.nrows && PressAll(d, presses).ncols == d.ncols
    decreases |presses|
  {
    if presses != [] {
      PressAllFrame(ButtonPressed(d, presses[0]), presses[1..]);
    }
  }

  /** The slot is overwritten, not queued: after any run of presses it
      holds the last accepted index, or its old content when none was
      accepted, and nothing else in the context changes. */
  lemma {:induction false} PressAllKeepsLastAccepted(d: Dock, presses: seq<int>)
    ensures PressAll(d, presses) == d.(pressed := LastAccepted(d, presses, d.pressed))
    decreases |presses|
  {
    if presses != [] {
      var init := presses[..|presses| - 1];
      var last := presses[|presses| - 1];
      assert presses == init + [last];
      PressAllSnoc(d, init, last);
      PressAllKeepsLastAccepted(d, init);
      PressAllFrame(d, init);
    }
  }

  /** However many presses precede a poll, that poll recalls at most one
      preset: the most recent accepted one. */
  lemma PressesThenDrainRecallOnce(d: Dock, presses: seq<int>)
    requires d.target.recv != Null
    requires d.pressed == NoPress
    ensures var r := DrainStep(PressAll(d, presses));
            var last := LastAccepted(d, presses, NoPress);
            && (last == NoPress ==> r.1 == [])
            && (last != NoPress ==> r.1 == [RecallPreset(d.target.recv, last, RecallSpeed)])
            && r.0.pressed == NoPress
  {
    PressAllKeepsLastAccepted(d, presses);
  }

  /** Pressing button 5 twice before the poller runs recalls preset 5 once,
      and a second poll recalls nothing. */
  lemma DoublePressRecallsOnce(d: Dock)
    requires d.target.recv != Null && d.nrows == 3 && d.ncols == 3
    ensures var first := DrainStep(ButtonPressed(ButtonPressed(d, 5), 5));
            && first.1 == [RecallPreset(d.target.recv, 5, RecallSpeed)]
            && DrainStep(first.0).1 == []
  {
  }

  /** A pending preset survives a recomputation that clears the receiver,
      and is then recalled against whichever receiver is resolved next. */
  lemma PendingPresetSurvivesRetarget(st: DockState, preview: Option<seq<SceneItem>>,
                                      program: Option<seq<SceneItem>>,
                                      preview2: Option<seq<SceneItem>>)
    requires st.dock.pressed >= 0
    requires Resolve(st.reg, preview, program) == OnProgram
    requires Resolve(st.reg, preview2, program).Active?
    ensures var cleared := SetDockContext(st, preview, program);
            && DrainStep(cleared.dock).1 == []
            && var again := SetDockContext(DockState(DrainStep(cleared.dock).0, st.reg), preview2, program);
               DrainStep(again.dock).1
                 == [RecallPreset(Resolve(st.reg, preview2, program).recv, st.dock.pressed, RecallSpeed)]
  {
  }
}
