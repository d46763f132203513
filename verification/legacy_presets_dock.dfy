/** The earlier presets dock of `ptz_presets_dock.cpp`: one button, a
    boolean pending flag and a polling thread that always recalls preset 1
    on whatever receiver was last handed to it. */
module LegacyPresetsDock {
  import opened Common

  /** The preset this dock always recalls. */
  const RecalledPreset: int := 1

  /** The static `context`: the receiver and the pending flag. */
  datatype LegacyDock = LegacyDock(recv: Ptr, pressed: bool)

  /** `ptz_presets_init`: the first call builds a zero-filled context (no
      receiver, nothing pending); later calls return early. */
  function Init(existing: Option<LegacyDock>): (d: LegacyDock)
    ensures existing.None? ==> d.recv == Null && !d.pressed
    ensures existing.Some? ==> d == existing.value
  {
    match existing
    case None => LegacyDock(Null, false)
    case Some(ctx) => ctx
  }

  /** `ptz_preset_button_pressed`: raise the flag, whether or not there is a
      receiver. */
  function ButtonPressed(d: LegacyDock): (r: LegacyDock)
    ensures r.pressed
    ensures r.recv == d.recv
  {
    d.(pressed := true)
  }

  /** `ptz_presets_set_recv`: replace the receiver and nothing else. */
  function SetRecv(d: LegacyDock, recv: Ptr): (r: LegacyDock)
    ensures r.recv == recv
    ensures r.pressed == d.pressed
  {
    d.(recv := recv)
  }

  /** One iteration of `ptz_presets_thread`: with the flag raised, recall
      preset 1 at speed 5 on the current receiver (even a null one) and
      lower the flag; otherwise do nothing. */
  function DrainStep(d: LegacyDock): (r: (LegacyDock, seq<NdiCall>))
    ensures d.pressed ==> r.1 == [RecallPreset(d.recv, RecalledPreset, RecallSpeed)]
    ensures !r.0.pressed && r.0.recv == d.recv
    ensures !d.pressed ==> r == (d, [])
  {
    if d.pressed then (d.(pressed := false), [RecallPreset(d.recv, RecalledPreset, RecallSpeed)])
    else (d, [])
  }

  /** `n` presses in a row. */
  function PressTimes(d: LegacyDock, n: nat): LegacyDock
    decreases n
  {
    if n == 0 then d else ButtonPressed(PressTimes(d, n - 1))
  }

  /** Any number of presses before a poll give a single recall of preset 1,
      and the poll after that recalls nothing. */
  lemma {:induction false} PressesCoalesce(d: LegacyDock, n: nat)
    requires n >= 1
    ensures var r := DrainStep(PressTimes(d, n));
            && r.1 == [RecallPreset(d.recv, RecalledPreset, RecallSpeed)]
            && r.0 == d.(pressed := false)
            && DrainStep(r.0).1 == []
  {
    PressTimesFrame(d, n);
  }

  lemma {:induction false} PressTimesFrame(d: LegacyDock, n: nat)
    ensures PressTimes(d, n).recv == d.recv
    ensures n >= 1 ==> PressTimes(d, n).pressed
    decreases n
  {
    if n > 0 {
      PressTimesFrame(d, n - 1);
    }
  }

  /** A press and a change of receiver commute, and the pending recall
      goes to the receiver handed over last, whatever it was at the press. */
  lemma RecallUsesLatestRecv(d: LegacyDock, recv: Ptr)
    ensures SetRecv(ButtonPressed(d), recv) == ButtonPressed(SetRecv(d, recv))
    ensures DrainStep(SetRecv(ButtonPressed(d), recv)).1 == [RecallPreset(recv, RecalledPreset, RecallSpeed)]
  {
  }

  /** A second initialisation is a no-op. */
  lemma InitIdempotent(existing: Option<LegacyDock>)
    ensures Init(Some(Init(existing))) == Init(existing)
  {
  }
}
