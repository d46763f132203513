# PTZ control core of an OBS/NDI plugin, in Dafny

This project models the sequential logic behind the PTZ (pan/tilt/zoom)
docks of an OBS Studio plugin for NDI cameras, and proves properties of that
model. It covers:

- **The active-source resolver and its two registries** (`registry.dfy`,
  `resolver.dfy`, `preview.dfy`, `agreement.dfy`).
  - The registries are the `MapWrapper` name→receiver and source→name maps.
  - On every preview-scene change the resolver picks the one NDI receiver
    that the presets dock and the controller dock act on.
  - Possible outcomes: no PTZ source (`NotSupported`), preview source is
    live (`OnProgram`), or an active source.
  - The plugin writes this algorithm out twice, once in the presets dock
    and once in the preview context. The two copies
    (src/ptz-presets-dock.cpp:206-263 and src/ptz-preview.cpp:110-167) are
    textually identical, so one `Resolver.Resolve` models both.
    `Agreement` records that the two contexts therefore install the same
    target for the same registries and scenes.
- **The preset request slot.**
  - `presets_dock.dfy` models the 3x3 presets dock. Button presses and
    hotkeys overwrite a single pending index, which holds -1 when empty. A
    polling step drains it into one preset recall. The dock also enforces
    the 12-character preset-name limit.
  - `legacy_presets_dock.dfy` models the earlier one-button dock with a
    boolean flag. It always recalls preset 1.
- **The gesture/zoom controller** (`controller.dfy`).
  - Wheel, click and move handlers record a gesture.
  - One iteration of the polling thread turns the gesture into VISCA
    commands: a clamped absolute zoom, and an absolute pan/tilt computed
    from the drag and the position read when the drag started.
  - Also modelled: the focus handler, and the camera address chosen when a
    receiver is attached.
- **Pure helpers.**
  - `uyvy.dfy`: UYVY 4:2:2 to RGB32 decoding.
  - `ip_address.dfy`: the dotted-quad search of `extractIPAddress`. The
    `std::regex` is modelled as the ECMAScript engine runs it: alternatives
    in order, greedy `?`, `\b` word boundaries. The engine is proved to
    return exactly the leftmost dotted quad.

How outside calls are modelled:

- Handles (`obs_source_t *`, `NDIlib_recv_instance_t`) are natural numbers,
  with 0 as the null pointer.
- The host's scene graph is an optional list of `(source, showing)` items
  per scene.
- Calls into NDI and VISCA appear as logs of issued calls (`NdiCall`,
  `ViscaCommand`).
- Values read back from the camera are parameters: the pan/tilt position,
  the zoom level, and whether the first read failed to connect.
- The two float calibration polynomials are an opaque `Calibration` of
  real-valued functions. The float-to-`int` cast is truncation toward zero
  (`PtzController.Trunc`).

When PTZ is supported but the web-control URL holds no IPv4 address, the
code stores `""` as the camera address and connects to it
(src/ptz-controller.cpp:358-368); it does not fall back to `127.0.0.1`.
`PtzController.SetRecv` states this.

## Model

| member | source | states |
|---|---|---|
| Common.Clamp | src/ptz-controller.cpp:297-298 | `std::clamp`/`qBound`: the result lies in `[lo, hi]`, equals `v` inside the range, `lo` below it and `hi` above it |
| Registry.Get | src/ptz-presets-dock.cpp:59-66 | a present key reads its stored value, an absent key reads the default (`nullptr` / `""`) |
| Registry.Set | src/ptz-presets-dock.cpp:57 | the key set grows by the key, the key maps to the new value, every other key keeps its value |
| Registry.Remove | src/ptz-preview.cpp:48 | only the erased key leaves the map; every remaining key keeps its value |
| Registry.ReverseLookup | src/ptz-presets-dock.cpp:68-76 | the least key (map order) holding the value, or the null key when no entry holds it |
| Registry.GetAfterSet | src/ptz-presets-dock.cpp:57-66 | last write wins, and a write does not change what other keys read |
| Registry.SetTwice | src/ptz-presets-dock.cpp:57 | a second write to a key overrides the first completely |
| Registry.GetAfterRemove | src/ptz-preview.cpp:30-48 | after `remove(k)`, `k` reads as the default and every other key reads as before |
| Registry.ReverseThenGet | src/ptz-presets-dock.cpp:59-76 | `get(reverseLookup(v)) == v` whenever some key holds `v` |
| Registry.ReverseLookupAfterRemove | src/ptz-preview.cpp:39-48 | a removed non-null key is never the answer of a later reverse lookup |
| Registry.ReverseLookupAfterSet | src/ptz-presets-dock.cpp:57-76 | after `set(k, v)` the reverse lookup of `v` answers `k` or a smaller key that also holds `v` |
| Resolver.EnumerateSceneItems | src/ptz-presets-dock.cpp:169-191 | only names with a non-null receiver are listed, no more names than items, and the list is empty exactly when no item is showing with a registered receiver |
| Resolver.EnumerateAppend | src/ptz-presets-dock.cpp:169-191 | enumeration distributes over concatenation: scene order is preserved |
| Resolver.EnumerateSingle | src/ptz-presets-dock.cpp:174-182 | one item contributes its name exactly when it is showing and its name maps to a non-null receiver |
| Resolver.EnumerateMembership | src/ptz-presets-dock.cpp:169-185 | a name is listed if and only if some showing item with a registered receiver carries it |
| Resolver.EnumerateFirst | src/ptz-presets-dock.cpp:169-185 | the first listed name is the name of the first qualifying item |
| Resolver.AnyOnProgram | src/ptz-presets-dock.cpp:232-245 | the scan finds a collision if and only if some preview name is in the program list |
| Resolver.ListOfNdiNames | src/ptz-presets-dock.cpp:187-191 | a missing scene gives no names, a scene gives the names its items enumerate; every listed name has a receiver |
| Resolver.EmptyNameFallback | src/ptz-presets-dock.cpp:250-262 | outside studio mode with no PTZ source on program, the empty name is looked up: a receiver registered under `""` becomes the active target, otherwise nothing is supported |
| Resolver.UnnamedSourceListedAsEmpty | src/ptz-presets-dock.cpp:176-182 | a showing source with no registered name is listed as `""` exactly when `""` has a receiver |
| Resolver.Resolve | src/ptz-presets-dock.cpp:206-263 | studio mode with no PTZ preview source gives NotSupported. A preview name that is live gives OnProgram. An active result carries the registered non-null receiver and the reverse-looked-up source; in studio mode it names the first preview source, which is not live. Outside studio mode the result is never OnProgram |
| Resolver.StudioModeActivatesFirstPreview | src/ptz-preview.cpp:136-161 | conversely, a non-empty preview list with no live name makes the first preview name active |
| Resolver.NonStudioModeUsesProgram | src/ptz-preview.cpp:151-161 | without a preview scene, a non-empty program list makes its first name active |
| Resolver.ActiveSourceCarriesName | src/ptz-preview.cpp:158-161 | when the chosen name is registered for some source, the target source is registered under that name |
| Resolver.TargetOf | src/ptz-preview.cpp:121-126 | each outcome's fields: no receiver exactly when not active, the not-supported and on-program texts, the active name and source |
| Resolver.Recompute | src/ptz-preview.cpp:110-167 | a recomputed target is consistent (no receiver implies no source and a status text), and a receiver comes with its display name and reverse-looked-up source |
| Preview.Init | src/ptz-preview.cpp:189-198 | a fresh context has no receiver, no source and the not-supported text; an existing one is kept |
| Preview.InitIdempotent | src/ptz-preview.cpp:189-193 | a second initialisation is a no-op, and the fresh context is consistent |
| Preview.SetContext | src/ptz-preview.cpp:110-167 | only the target changes; it is consistent and tied to the registries |
| Preview.SetContextDeterministic | src/ptz-preview.cpp:110-167 | with the registries and scenes unchanged, recomputation does not depend on the old target and is idempotent |
| Preview.SetNdiNameRecvMap | src/ptz-preview.cpp:61-69 | the name maps to the new receiver, other names are unchanged, and the target is recomputed against the new registry |
| Preview.SetSourceNdiNameMap | src/ptz-preview.cpp:70-74 | the source maps to the new name, others unchanged, and the target is not recomputed |
| Preview.SourceDeleted | src/ptz-preview.cpp:76-84 | the source leaves the source map and the endpoint map is untouched. If it was the current source the target drops to not-supported, otherwise it is unchanged. Afterwards it is never the current source |
| Preview.OnSceneChanged | src/ptz-preview.cpp:169-182 | only a preview-scene change recomputes; any other event leaves the state alone |
| Preview.DeletedSourceNeverResolved | src/ptz-preview.cpp:76-84 | after deleting a source, no recomputation makes it the current source again |
| Preview.OperationsKeepConsistent | src/ptz-preview.cpp:61-167 | every operation preserves the target invariant |
| Agreement.DockAndPreviewAgree | src/ptz-presets-dock.cpp:206-263 | the dock's recomputation installs the same target as the preview's (the textually identical copy at src/ptz-preview.cpp:110-167) for the same registries and scenes, and leaves the rest of the dock alone; this holds by construction, both being modelled by one `Resolver.Recompute` |
| PresetsDock.Init | src/ptz-presets-dock.cpp:320-372 | a fresh dock is a 9-button grid with an empty slot and no receiver; an existing one is kept |
| PresetsDock.InitIdempotent | src/ptz-presets-dock.cpp:320-322 | a second initialisation is a no-op |
| PresetsDock.ButtonPressed | src/ptz-presets-dock.cpp:137-143 | an index is stored exactly when there is a receiver and `1 <= index <= nrows*ncols`; otherwise nothing changes |
| PresetsDock.HotkeyPressed | src/ptz-presets-dock.cpp:144-150 | a key press acts as a click on the bound button; a release does nothing |
| PresetsDock.DrainStep | src/ptz-presets-dock.cpp:284-292 | with a receiver and a pending index: exactly one recall of that index at speed 5, and the slot empties. Otherwise no call, and the pending index is kept |
| PresetsDock.PropertyModified | src/ptz-presets-dock.cpp:118-136 | returns true exactly when the name is longer than 12 characters, then stores its 12-character prefix. Otherwise the settings are untouched. Other properties are never changed |
| PresetsDock.PropertyModifiedIdempotent | src/ptz-presets-dock.cpp:118-136 | applying the limit twice equals applying it once, and the second call reports no change |
| PresetsDock.SetDockContext | src/ptz-presets-dock.cpp:206-263 | only the target changes; grid, slot and registries are untouched |
| PresetsDock.SetNdiNameRecvMap | src/ptz-presets-dock.cpp:154-162 | registers the receiver, leaves other names, recomputes the target, keeps the slot |
| PresetsDock.SetSourceNdiNameMap | src/ptz-presets-dock.cpp:163-167 | registers the name and leaves the dock untouched |
| PresetsDock.OnSceneChanged | src/ptz-presets-dock.cpp:265-278 | only a preview-scene change recomputes the target |
| PresetsDock.PressAllKeepsLastAccepted | src/ptz-presets-dock.cpp:137-143 | the slot is overwritten, not queued: after any run of presses it holds the last accepted index (or its old content) |
| PresetsDock.PressesThenDrainRecallOnce | src/ptz-presets-dock.cpp:284-292 | (with the button handler at lines 137-143) however many presses precede a poll, that poll recalls at most one preset, the most recent accepted one |
| PresetsDock.DoublePressRecallsOnce | src/ptz-presets-dock.cpp:284-292 | (with the button handler at lines 137-143) pressing button 5 twice before a poll recalls preset 5 once; the next poll recalls nothing |
| PresetsDock.PendingPresetSurvivesRetarget | src/ptz-presets-dock.cpp:238-291 | a pending index survives a recomputation that clears the receiver and is recalled on the next resolved receiver |
| LegacyPresetsDock.Init | src/ptz_presets_dock.cpp:74-78 | a fresh context has no receiver and no pending press; an existing one is kept |
| LegacyPresetsDock.InitIdempotent | src/ptz_presets_dock.cpp:76-77 | a second initialisation is a no-op |
| LegacyPresetsDock.ButtonPressed | src/ptz_presets_dock.cpp:33-37 | the flag is raised whether or not there is a receiver |
| LegacyPresetsDock.SetRecv | src/ptz_presets_dock.cpp:39-43 | only the receiver changes |
| LegacyPresetsDock.DrainStep | src/ptz_presets_dock.cpp:49-54 | with the flag raised: exactly one recall of preset 1 at speed 5 on the current receiver, and the flag drops. Otherwise nothing |
| LegacyPresetsDock.PressesCoalesce | src/ptz_presets_dock.cpp:33-54 | any number of presses before a poll give a single recall, and the next poll recalls nothing |
| LegacyPresetsDock.RecallUsesLatestRecv | src/ptz_presets_dock.cpp:33-54 | a press and a receiver change commute, and the pending recall goes to the receiver set last |
| IpAddress.MatchAtExact | src/ptz-controller.cpp:219-221 | the backtracking regex engine matches at a position exactly where a declarative dotted quad with word boundaries starts, ending where it ends |
| IpAddress.IpMatchUnique | src/ptz-controller.cpp:219-221 | at most one match starts at any position |
| IpAddress.SearchFrom | src/ptz-controller.cpp:223 | `regex_search` finds the leftmost start with a match, or reports that none exists |
| IpAddress.ExtractIPAddress | src/ptz-controller.cpp:217-227 | the result is `""` exactly when the text holds no bounded dotted quad. Otherwise it is the leftmost one: a substring of four dot-separated octets, each at most 255 |
| IpAddress.DottedQuadLength | src/ptz-controller.cpp:363 | an extracted address is at most 15 characters, so it always fits the 100-byte `ip` buffer |
| IpAddress.FirstDigitMatchIsExtracted | src/ptz-controller.cpp:217-227 | a match preceded by no digit is the extracted address |
| IpAddress.NoDigitNoAddress | src/ptz-controller.cpp:217-227 | a text without digits yields `""` |
| IpAddress.ExtractFromControlUrl | src/ptz-controller.cpp:217-227 | `"http://192.168.1.50:80/ctrl"` yields `"192.168.1.50"` |
| IpAddress.ExtractFromHostName | src/ptz-controller.cpp:217-227 | `"http://camera.local/ctrl"` yields `""` |
| PtzController.Trunc | src/ptz-controller.cpp:327-330 | the float-to-int cast rounds toward zero: for non-negative input the greatest integer not above it, for negative input the least integer not below it |
| PtzController.Init | src/ptz-controller.cpp:385-392 | a zero-filled context: no receiver, no gesture, empty address |
| PtzController.SetWheel | src/ptz-controller.cpp:228-234 | adds `dx` and `dy` to the deltas and changes nothing else |
| PtzController.MouseClick | src/ptz-controller.cpp:247-257 | `mouse_down = !mouse_up`. A press sets start = move = pointer and raises drag-start. A release changes nothing else |
| PtzController.MouseMove | src/ptz-controller.cpp:259-266 | while the button is down the move position follows the pointer; otherwise the state is unchanged |
| PtzController.Focus | src/ptz-controller.cpp:267-289 | on focus: reconnect to the stored address exactly when the first read reports a connection error, then store the read zoom and its calibrated ratios. Losing focus does nothing |
| PtzController.ZoomPhase | src/ptz-controller.cpp:296-307 | a non-zero vertical delta becomes one `setZoomLevel(clamp(zoom + 4*dy, 0, 16384))` and is consumed |
| PtzController.DragPhase | src/ptz-controller.cpp:308-320 | at drag start the read pan/tilt and zoom are stored with fresh ratios and the flag is cleared; otherwise nothing changes |
| PtzController.Calibrate | src/ptz-controller.cpp:311-313 | the stored zoom and both pixel ratios are replaced by the reading and its calibrated ratios (also at lines 281-282); nothing else changes |
| PtzController.MovePhase | src/ptz-controller.cpp:321-337 | while the button is down one absolute pan/tilt command to the drag's target is sent; otherwise nothing |
| PtzController.PanTiltTarget | src/ptz-controller.cpp:322-330 | with no pointer travel (or a zero ratio) on an axis, the target on that axis is the position read at drag start |
| PtzController.PollStep | src/ptz-controller.cpp:294-338 | without a receiver: no command and no change. With one: drag-start is cleared and the vertical delta consumed; one zoom command per non-zero delta, then one pan/tilt command while the button is down; the horizontal delta, pointer fields, receiver and address are untouched |
| PtzController.SetRecv | src/ptz-controller.cpp:355-369 | the receiver is replaced. A non-null receiver triggers one connect to port 5678 of the chosen address: the URL's dotted quad or `""` when PTZ is supported, `127.0.0.1` otherwise. The address fits the buffer |
| PtzController.HorizontalWheelNeverConsumed | src/ptz-controller.cpp:294-338 | (with the wheel handler at lines 228-234) after any run of events the horizontal delta is its initial value plus all horizontal wheel travel |
| PtzController.ZoomCommandsBoundedByPolls | src/ptz-controller.cpp:296-307 | no run of events sends more zoom commands than it has polls |
| PtzController.WheelRunAccumulates | src/ptz-controller.cpp:228-234 | a run of wheel events sends nothing and adds its travel to the deltas |
| PtzController.WheelEventsCoalesce | src/ptz-controller.cpp:296-307 | (with the wheel handler at lines 228-234) wheel events between polls coalesce: the next poll opens with one zoom command for their summed travel and sends no other zoom command, whether or not a drag is in progress |
| PtzController.WheelEventsCoalesceIdle | src/ptz-controller.cpp:296-337 | with the button up, that zoom command is the poll's whole log |
| PtzController.TwoNotchesOneZoom | src/ptz-controller.cpp:296-307 | (with the wheel handler at lines 228-234) notches of +3 and +4 before a poll become one `setZoomLevel(clamp(zoom + 28, 0, 16384))` |
| PtzController.PressThenPollHoldsPosition | src/ptz-controller.cpp:308-337 | (with the press handler at lines 247-257) a press followed by a poll points the camera at the position just read from it |
| PtzController.InitIsIdle | src/ptz-controller.cpp:295 | a fresh controller's poll does nothing |
| PtzController.FocusIdempotent | src/ptz-controller.cpp:267-289 | focusing twice with the same reading calibrates as focusing once |
| PtzController.AddressFitsBuffer | src/ptz-controller.cpp:356-368 | the stored address is at most 15 characters for every URL |
| Uyvy.UYVYtoRGB | src/ptz-controller.cpp:18-36 | for any int inputs every channel of both pixels is in `[0, 255]`. Equal lumas give equal pixels, and neutral chroma gives grey |
| Uyvy.Shift8 | src/ptz-controller.cpp:25-31 | `>> 8` is floor division by 256 |
| Uyvy.LumaMonotonic | src/ptz-controller.cpp:18-36 | a brighter luma never gives a darker channel |
| Uyvy.BlackAndWhite | src/ptz-controller.cpp:18-36 | video black (16) and white (235) with neutral chroma decode to `(0,0,0)` and `(255,255,255)` |
| Uyvy.Pack | src/ptz-controller.cpp:34-35 | `qRgb` yields an opaque 32-bit `0xFFrrggbb` value |
| Uyvy.UnpackPack | src/ptz-controller.cpp:34-35 | packing an in-range colour loses nothing |
| Uyvy.PairInBounds | src/ptz-controller.cpp:43-51 | for an even width, the four bytes read at `(y*width + x)*2` lie below `width*height*2` |
| Uyvy.GroupDecodesPair | src/ptz-controller.cpp:45-57 | the pixels written for group `g` are pixels `2g` and `2g+1` of the frame |
| Uyvy.DecodeRow | src/ptz-controller.cpp:44-58 | one row: every pixel is written, with the value the frame denotes |
| Uyvy.ConvertUYVYtoRGB32 | src/ptz-controller.cpp:39-62 | a `height` x `width` image whose pixel `(x, y)` is pixel `y*width + x` of the frame; every pixel is written |

## Left out

- Qt widgets, painting, layouts and button construction (`InteractiveCanvas`, `PTZControllerWidget`, `PTZPresetsWidget`): user interface only.
- Threads, the `running` flag, `pthread_create`/`join` and the sleeps: one loop iteration is modelled as a sequential step. The shared fields are unlocked in the plugin, and no thread-safety claim is made.
- Calls into NDI and VISCA: modelled as logged calls and as supplied read results. The model does not say what a failed read leaves in the output variable; a read always supplies a value.
- `ptz_pixels_to_pan_ratio` / `ptz_pixels_to_tilt_ratio`: float polynomials, kept as the opaque `Calibration`. Float rounding of `(float)dx * ratio` is not modelled; the product is exact on reals before truncation.
- PtzController.SetWheel: does not model 32-bit overflow of the accumulated deltas or of `zoom + 4*y_delta`, because integers are unbounded here.
- PtzController.SetRecv: does not model the `if (!s) return;` guard on a null context, the null URL `recv_get_web_control` may return, or the thread start.
- Uyvy.ConvertUYVYtoRGB32: requires an even width. For an odd width the source reads past the end of the frame buffer, and the behaviour is undefined.
- Uyvy.UYVYtoRGB: does not model `int` overflow of the products, which cannot happen for byte inputs.
- PresetsDock.PropertyModified: counts characters, while the source's `strlen` and `substr` count bytes. The two agree for ASCII names.
- Registry.ReverseLookup: modelled for handle-keyed maps only, which is the one use the plugin makes of it.
- Logging (`blog`), settings defaults, hotkey and dock registration, and `obs_module_text` (status texts are the `StatusLabel` tags).
- Resolver: the zero-filled `std::string` of a fresh presets-dock context is shown as `EmptyText`.
- Resolver: a preview source that is not a scene enumerates nothing in the source; the caller expresses it as a preview scene with no items.
