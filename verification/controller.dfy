/** The gesture and zoom controller of `ptz-controller.cpp`: the mouse and
    wheel handlers that record a gesture, one iteration of the polling
    thread that turns the recorded gesture into VISCA commands, the focus
    handler and the camera address chosen when a receiver is attached.

    The camera is a log of the commands sent to it; what the camera
    reports back (its pan/tilt position, its zoom level, whether the first
    read failed to connect) is supplied by the caller. The two float
    calibration polynomials are an opaque `Calibration`. */
module PtzController {
  import opened Common
  import IpAddress

  /** Bounds of the zoom level sent to the camera. */
  const ZoomMin: int := 0
  const ZoomMax: int := 16384

  /** Zoom units per wheel unit. */
  const ZoomPerWheelUnit: int := 4

  /** TCP port of the camera's VISCA-over-IP endpoint. */
  const ViscaPort: int := 5678

  /** Address used for a receiver that does not support PTZ. */
  const Loopback: string := "127.0.0.1"

  /** Size of the `ip` character buffer, terminator included. */
  const IpBufferSize: nat := 100

  /** A VISCA pan/tilt pair (`visca_tuple_t`). */
  datatype PanTilt = PanTilt(pan: int, tilt: int)

  /** The fields of `ptz_controller_t` that the handlers and the polling
      thread use. */
  datatype Controller = Controller(
    xDelta: int, yDelta: int,
    xStart: int, yStart: int,
    xMove: int, yMove: int,
    mouseDown: bool, dragStart: bool,
    zoom: int, ptStart: PanTilt,
    pixelsToPan: real, pixelsToTilt: real,
    recv: Ptr, ip: string)

  /** Commands sent to the camera. */
  datatype ViscaCommand =
    | SetZoomLevel(level: int)
    | SetAbsolutePanTilt(target: PanTilt)
    | ConnectCamera(address: string, port: int)

  /** What the camera reports when the polling thread reads it. */
  datatype Readings = Readings(panTilt: PanTilt, zoom: int)

  /** `ptz_pixels_to_pan_ratio` and `ptz_pixels_to_tilt_ratio`: pixels of
      mouse travel to camera units, as a function of the zoom level. */
  datatype Calibration = Calibration(panRatio: int -> real, tiltRatio: int -> real)

  /** Input events of the controller, with one iteration of the polling
      thread as an event of its own. */
  datatype Event =
    | Wheel(dx: int, dy: int)
    | Click(mouseUp: bool, x: int, y: int)
    | Move(x: int, y: int)
    | Poll(readings: Readings)

  /** The C conversion of a float to `int`: drop the fraction, rounding
      toward zero. */
  function Trunc(x: real): (n: int)
    ensures 0.0 <= x ==> 0 <= n && n as real <= x < n as real + 1.0
    ensures x < 0.0 ==> n <= 0 && n as real - 1.0 < x <= n as real
  {
    if x >= 0.0 then x.Floor else -((-x).Floor)
  }

  /** `ptz_controller_init`: a zero-filled context. */
  function Init(): (c: Controller)
    ensures c.recv == Null && c.ip == ""
    ensures c.xDelta == 0 && c.yDelta == 0
    ensures !c.mouseDown && !c.dragStart
  {
    Controller(0, 0, 0, 0, 0, 0, false, false, 0, PanTilt(0, 0), 0.0, 0.0, Null, "")
  }

  /** `ptz_controller_set_wheel`: accumulate the wheel deltas and change
      nothing else. */
  function SetWheel(c: Controller, dx: int, dy: int): (r: Controller)
    ensures r.xDelta == c.xDelta + dx
    ensures r.yDelta == c.yDelta + dy
    ensures r.(xDelta := c.xDelta, yDelta := c.yDelta) == c
  {
    c.(xDelta := c.xDelta + dx, yDelta := c.yDelta + dy)
  }

  /** `ptz_controller_mouse_click`: a press records the start of a drag at
      the pointer; a release only lowers the button. */
  function MouseClick(c: Controller, mouseUp: bool, x: int, y: int): (r: Controller)
    ensures r.mouseDown == !mouseUp
    ensures !mouseUp ==>
              && r.xStart == x && r.xMove == x
              && r.yStart == y && r.yMove == y
              && r.dragStart
    ensures mouseUp ==> r == c.(mouseDown := false)
    ensures r.(xStart := c.xStart, yStart := c.yStart, xMove := c.xMove, yMove := c.yMove,
               mouseDown := c.mouseDown, dragStart := c.dragStart) == c
  {
    if !mouseUp then
      c.(mouseDown := true, xStart := x, yStart := y, xMove := x, yMove := y, dragStart := true)
    else
      c.(mouseDown := false)
  }

  /** `ptz_controller_mouse_move`: follow the pointer while the button is
      down. The modifier keys and the leave flag are ignored. */
  function MouseMove(c: Controller, mods: int, x: int, y: int, mouseLeave: bool): (r: Controller)
    ensures c.mouseDown ==> r.xMove == x && r.yMove == y
    ensures c.mouseDown ==> r.(xMove := c.xMove, yMove := c.yMove) == c
    ensures !c.mouseDown ==> r == c
  {
    if c.mouseDown then c.(xMove := x, yMove := y) else c
  }

  /** Store a zoom level together with the ratios calibrated for it. */
  function Calibrate(c: Controller, zoom: int, cal: Calibration): (r: Controller)
    ensures r.zoom == zoom
    ensures r.pixelsToPan == cal.panRatio(zoom) && r.pixelsToTilt == cal.tiltRatio(zoom)
    ensures r.(zoom := c.zoom, pixelsToPan := c.pixelsToPan, pixelsToTilt := c.pixelsToTilt) == c
  {
    c.(zoom := zoom, pixelsToPan := cal.panRatio(zoom), pixelsToTilt := cal.tiltRatio(zoom))
  }

  /** `ptz_controller_focus`: on gaining focus, read the flips (reconnecting
      to the camera if the first read reports a connection error; the flips
      themselves are only logged), then read the zoom level and recalibrate.
      Losing focus does nothing. */
  function Focus(c: Controller, focus: bool, connectError: bool, zoom: int,
                 cal: Calibration): (r: (Controller, seq<ViscaCommand>))
    ensures !focus ==> r == (c, [])
    ensures focus && connectError ==> r.1 == [ConnectCamera(c.ip, ViscaPort)]
    ensures focus && !connectError ==> r.1 == []
    ensures focus ==> r.0 == Calibrate(c, zoom, cal)
  {
    if !focus then (c, [])
    else
      var log := if connectError then [ConnectCamera(c.ip, ViscaPort)] else [];
      (Calibrate(c, zoom, cal), log)
  }

  /** First phase of a poll: a non-zero wheel delta becomes one absolute
      zoom command, clamped to the camera's range, and the delta is
      consumed. */
  function ZoomPhase(c: Controller): (r: (Controller, seq<ViscaCommand>))
    ensures c.yDelta != 0 ==>
              && r.0.zoom == Clamp(c.zoom + c.yDelta * ZoomPerWheelUnit, ZoomMin, ZoomMax)
              && r.0.yDelta == 0
              && r.1 == [SetZoomLevel(r.0.zoom)]
    ensures c.yDelta == 0 ==> r == (c, [])
    ensures r.0.(zoom := c.zoom, yDelta := c.yDelta) == c
  {
    if c.yDelta != 0 then
      var zoom := Clamp(c.zoom + c.yDelta * ZoomPerWheelUnit, ZoomMin, ZoomMax);
      (c.(zoom := zoom, yDelta := 0), [SetZoomLevel(zoom)])
    else
      (c, [])
  }

  /** Second phase: at the start of a drag, read where the camera points
      and its zoom level, recalibrate, and clear the drag-start flag. */
  function DragPhase(c: Controller, readings: Readings, cal: Calibration): (r: Controller)
    ensures !r.dragStart
    ensures c.dragStart ==> r.ptStart == readings.panTilt && r == Calibrate(r, readings.zoom, cal)
    ensures !c.dragStart ==> r == c
    ensures r.(ptStart := c.ptStart, zoom := c.zoom, pixelsToPan := c.pixelsToPan,
               pixelsToTilt := c.pixelsToTilt, dragStart := c.dragStart) == c
  {
    if c.dragStart then
      Calibrate(c.(ptStart := readings.panTilt, dragStart := false), readings.zoom, cal)
    else
      c
  }

  /** Where a drag points the camera: the position read at its start,
      offset by the pointer travel scaled by the calibrated ratios. */
  function PanTiltTarget(c: Controller): (t: PanTilt)
    ensures c.xStart == c.xMove ==> t.pan == c.ptStart.pan
    ensures c.yStart == c.yMove ==> t.tilt == c.ptStart.tilt
    ensures c.pixelsToPan == 0.0 ==> t.pan == c.ptStart.pan
    ensures c.pixelsToTilt == 0.0 ==> t.tilt == c.ptStart.tilt
  {
    PanTilt(c.ptStart.pan + Trunc((c.xStart - c.xMove) as real * c.pixelsToPan),
            c.ptStart.tilt + Trunc((c.yStart - c.yMove) as real * c.pixelsToTilt))
  }

  /** Third phase: while the button is down, send the drag's target. */
  function MovePhase(c: Controller): (log: seq<ViscaCommand>)
    ensures c.mouseDown ==> log == [SetAbsolutePanTilt(PanTiltTarget(c))]
    ensures !c.mouseDown ==> log == []
  {
    if c.mouseDown then [SetAbsolutePanTilt(PanTiltTarget(c))] else []
  }

  /** One iteration of `ptz_controller_thread` (the sleep left out). Without
      a receiver nothing happens; with one, the zoom, drag-start and drag
      phases run in that order. */
  function PollStep(c: Controller, readings: Readings, cal: Calibration): (r: (Controller, seq<ViscaCommand>))
    ensures c.recv == Null ==> r == (c, [])
    ensures c.recv != Null ==>
              && !r.0.dragStart
              && r.0.yDelta == 0
              && |r.1| == (if c.yDelta != 0 then 1 else 0) + (if c.mouseDown then 1 else 0)
              && (c.yDelta != 0 ==>
                    r.1[0] == SetZoomLevel(Clamp(c.zoom + c.yDelta * ZoomPerWheelUnit, ZoomMin, ZoomMax)))
              && (c.mouseDown ==> r.1[|r.1| - 1] == SetAbsolutePanTilt(PanTiltTarget(r.0)))
              && (c.dragStart ==> r.0.ptStart == readings.panTilt && r.0.zoom == readings.zoom)
              && (!c.dragStart ==> r.0.ptStart == c.ptStart && r.0.pixelsToPan == c.pixelsToPan
                                   && r.0.pixelsToTilt == c.pixelsToTilt)
              && (!c.dragStart && c.yDelta == 0 ==> r.0 == c)
    ensures r.0.xDelta == c.xDelta
    ensures r.0.xStart == c.xStart && r.0.yStart == c.yStart
    ensures r.0.xMove == c.xMove && r.0.yMove == c.yMove
    ensures r.0.mouseDown == c.mouseDown && r.0.recv == c.recv && r.0.ip == c.ip
  {
    if c.recv == Null then (c, [])
    else
      var zoomed := ZoomPhase(c);
      var dragged := DragPhase(zoomed.0, readings, cal);
      (dragged, zoomed.1 + MovePhase(dragged))
  }

  /** `ptz_controller_set_recv` on a live context: drop the receiver, and for
      a non-null one attach it, choose the camera address (the address in
      the web-control URL when the receiver supports PTZ, the loopback
      address otherwise) and connect to it. */
  function SetRecv(c: Controller, recv: Ptr, ptzSupported: bool, webControlUrl: string): (r: (Controller, seq<ViscaCommand>))
    ensures r.0.recv == recv
    ensures recv == Null ==> r == (c.(recv := Null), [])
    ensures recv != Null ==> r.1 == [ConnectCamera(r.0.ip, ViscaPort)]
    ensures recv != Null && !ptzSupported ==> r.0.ip == Loopback
    ensures recv != Null && ptzSupported ==>
              && r.0.ip == IpAddress.ExtractIPAddress(webControlUrl)
              && (r.0.ip == "" || IpAddress.IsDottedQuad(r.0.ip))
    ensures |r.0.ip| < IpBufferSize || r.0.ip == c.ip
    ensures r.0.(recv := c.recv, ip := c.ip) == c
  {
    if recv == Null then (c.(recv := Null), [])
    else
      var ip := if ptzSupported then IpAddress.ExtractIPAddress(webControlUrl) else Loopback;
      assert |ip| <= 15 by {
        if ip != "" && ptzSupported {
          IpAddress.DottedQuadLength(ip);
        }
      }
      (c.(recv := recv, ip := ip), [ConnectCamera(ip, ViscaPort)])
  }

  // ---------------------------------------------------------------------
  // Runs of events

  function Apply(c: Controller, e: Event, cal: Calibration): (Controller, seq<ViscaCommand>) {
    match e
    case Wheel(dx, dy) => (SetWheel(c, dx, dy), [])
    case Click(mouseUp, x, y) => (MouseClick(c, mouseUp, x, y), [])
    case Move(x, y) => (MouseMove(c, 0, x, y, false), [])
    case Poll(readings) => PollStep(c, readings, cal)
  }

  /** The state after a run of events, and every command sent on the way. */
  function Run(c: Controller, events: seq<Event>, cal: Calibration): (Controller, seq<ViscaCommand>)
    decreases |events|
  {
    if events == [] then (c, [])
    else
      var first := Apply(c, events[0], cal);
      var rest := Run(first.0, events[1..], cal);
      (rest.0, first.1 + rest.1)
  }

  /** Total horizontal and vertical wheel travel of a run. */
  function WheelX(events: seq<Event>): int
    decreases |events|
  {
    if events == [] then 0
    else (if events[0].Wheel? then events[0].dx else 0) + WheelX(events[1..])
  }

  function WheelY(events: seq<Event>): int
    decreases |events|
  {
    if events == [] then 0
    else (if events[0].Wheel? then events[0].dy else 0) + WheelY(events[1..])
  }

  function Polls(events: seq<Event>): nat
    decreases |events|
  {
    if events == [] then 0 else (if events[0].Poll? then 1 else 0) + Polls(events[1..])
  }

  function ZoomCommands(log: seq<ViscaCommand>): nat
    decreases |log|
  {
    if log == [] then 0 else (if log[0].SetZoomLevel? then 1 else 0) + ZoomCommands(log[1..])
  }

  predicate AllWheel(events: seq<Event>) {
    forall i :: 0 <= i < |events| ==> events[i].Wheel?
  }

  lemma {:induction false} ZoomCommandsAppend(a: seq<ViscaCommand>, b: seq<ViscaCommand>)
    ensures ZoomCommands(a + b) == ZoomCommands(a) + ZoomCommands(b)
    decreases |a|
  {
    if a != [] {
      assert (a + b)[1..] == a[1..] + b;
      ZoomCommandsAppend(a[1..], b);
    } else {
      assert a + b == b;
    }
  }

  /** The horizontal wheel delta is accumulated and never consumed: after
      any run it is the initial delta plus all horizontal wheel travel. */
  lemma {:induction false} HorizontalWheelNeverConsumed(c: Controller, events: seq<Event>, cal: Calibration)
    ensures Run(c, events, cal).0.xDelta == c.xDelta + WheelX(events)
    decreases |events|
  {
    if events != [] {
      HorizontalWheelNeverConsumed(Apply(c, events[0], cal).0, events[1..], cal);
    }
  }

  /** A poll sends at most one zoom command, so no run sends more zoom
      commands than it has polls. */
  lemma {:induction false} ZoomCommandsBoundedByPolls(c: Controller, events: seq<Event>, cal: Calibration)
    ensures ZoomCommands(Run(c, events, cal).1) <= Polls(events)
    decreases |events|
  {
    if events != [] {
      var first := Apply(c, events[0], cal);
      ZoomCommandsBoundedByPolls(first.0, events[1..], cal);
      ZoomCommandsAppend(first.1, Run(first.0, events[1..], cal).1);
      if events[0].Poll? {
        var z := ZoomPhase(c);
        if c.recv != Null {
          ZoomCommandsAppend(z.1, MovePhase(DragPhase(z.0, events[0].readings, cal)));
        }
      }
    }
  }

  /** Wheel events only accumulate: a run of them sends nothing and adds
      its travel to the deltas. */
  lemma {:induction false} WheelRunAccumulates(c: Controller, events: seq<Event>, cal: Calibration)
    requires AllWheel(events)
    ensures Run(c, events, cal) == (c.(xDelta := c.xDelta + WheelX(events), yDelta := c.yDelta + WheelY(events)), [])
    decreases |events|
  {
    if events != [] {
      assert events[0].Wheel?;
      assert AllWheel(events[1..]) by {
        forall i | 0 <= i < |events[1..]| ensures events[1..][i].Wheel? {
          assert events[1..][i] == events[i + 1];
        }
      }
      var c1 := SetWheel(c, events[0].dx, events[0].dy);
      assert Apply(c, events[0], cal) == (c1, []);
      WheelRunAccumulates(c1, events[1..], cal);
      var rest := Run(c1, events[1..], cal);
      assert Run(c, events, cal) == (rest.0, [] + rest.1);
      assert [] + rest.1 == [];
    }
  }

  /** Wheel events between two polls coalesce: the next poll opens with a
      single zoom command for their summed travel and sends no other one,
      whether or not a drag is in progress. */
  lemma WheelEventsCoalesce(c: Controller, events: seq<Event>, readings: Readings, cal: Calibration)
    requires AllWheel(events)
    requires c.recv != Null
    requires c.yDelta + WheelY(events) != 0
    ensures var log := PollStep(Run(c, events, cal).0, readings, cal).1;
            && |log| >= 1
            && log[0] == SetZoomLevel(Clamp(c.zoom + (c.yDelta + WheelY(events)) * ZoomPerWheelUnit, ZoomMin, ZoomMax))
            && ZoomCommands(log) == 1
  {
    WheelRunAccumulates(c, events, cal);
    var acc := Run(c, events, cal).0;
    var z := ZoomPhase(acc);
    var move := MovePhase(DragPhase(z.0, readings, cal));
    ZoomCommandsAppend(z.1, move);
    assert ZoomCommands(move) == 0 by {
      if acc.mouseDown {
        assert move[1..] == [];
      }
    }
  }

  /** Without a drag the zoom command is the whole of that poll's log. */
  lemma WheelEventsCoalesceIdle(c: Controller, events: seq<Event>, readings: Readings, cal: Calibration)
    requires AllWheel(events)
    requires c.recv != Null && !c.mouseDown
    requires c.yDelta + WheelY(events) != 0
    ensures var acc := Run(c, events, cal);
            PollStep(acc.0, readings, cal).1
              == [SetZoomLevel(Clamp(c.zoom + (c.yDelta + WheelY(events)) * ZoomPerWheelUnit, ZoomMin, ZoomMax))]
  {
    WheelRunAccumulates(c, events, cal);
  }

  /** Two wheel notches of 3 and 4 units before a poll become one zoom
      command 28 units further in. */
  lemma TwoNotchesOneZoom(c: Controller, readings: Readings, cal: Calibration)
    requires c.recv != Null && !c.mouseDown && c.yDelta == 0
    ensures var acc := Run(c, [Wheel(0, 3), Wheel(0, 4)], cal);
            var step := PollStep(acc.0, readings, cal);
            step.1 == [SetZoomLevel(Clamp(c.zoom + 28, ZoomMin, ZoomMax))] && step.0.yDelta == 0
  {
    var events := [Wheel(0, 3), Wheel(0, 4)];
    assert WheelY(events) == 7 by {
      assert events[1..] == [Wheel(0, 4)];
      assert events[1..][1..] == [];
    }
    WheelEventsCoalesceIdle(c, events, readings, cal);
  }

  /** A press followed by a poll, before the pointer moves, points the
      camera where it already is: the position just read from it. */
  lemma PressThenPollHoldsPosition(c: Controller, x: int, y: int, readings: Readings, cal: Calibration)
    requires c.recv != Null
    ensures var step := PollStep(MouseClick(c, false, x, y), readings, cal);
            && step.1[|step.1| - 1] == SetAbsolutePanTilt(readings.panTilt)
            && step.0.ptStart == readings.panTilt
            && !step.0.dragStart
  {
  }

  /** A fresh controller has no receiver, so its polling thread idles. */
  lemma InitIsIdle(readings: Readings, cal: Calibration)
    ensures PollStep(Init(), readings, cal) == (Init(), [])
  {
  }

  /** Focusing twice with the same zoom reading calibrates as focusing
      once. */
  lemma FocusIdempotent(c: Controller, zoom: int, cal: Calibration)
    ensures var once := Focus(c, true, false, zoom, cal).0;
            Focus(once, true, false, zoom, cal).0 == once
  {
  }

  /** Whatever the URL, the address kept for the camera fits its buffer:
      a dotted quad is at most 15 characters, the empty string or the
      loopback address even less. */
  lemma AddressFitsBuffer(c: Controller, recv: Ptr, ptzSupported: bool, url: string)
    requires recv != Null
    ensures |SetRecv(c, recv, ptzSupported, url).0.ip| <= 15
  {
    var ip := SetRecv(c, recv, ptzSupported, url).0.ip;
    if ip != "" && ptzSupported {
      IpAddress.DottedQuadLength(ip);
    }
  }
}
