/** The presets dock and the preview each carry their own copy of the
    registries and of the resolver. The two copies of the recomputation
    (`ptz-presets-dock.cpp` lines 206-263 and `ptz-preview.cpp` lines
    110-167) are textually identical, which is why both are modelled by the
    one `Resolver.Recompute`; this module records the consequence. */
module Agreement {
  import opened Common
  import opened Resolver
  import Preview
  import PresetsDock

  /** `ptz_presets_set_dock_context` and `ptz_preview_set_context` agree,
      and both leave everything but the target alone. This holds by
      construction, since both sides call `Recompute`. */
  lemma DockAndPreviewAgree(dock: PresetsDock.DockState, preview: Preview.PreviewState,
                            previewScene: Option<seq<SceneItem>>,
                            programScene: Option<seq<SceneItem>>)
    requires dock.reg == preview.reg
    ensures PresetsDock.SetDockContext(dock, previewScene, programScene).dock.target
            == Preview.SetContext(preview, previewScene, programScene).target
    ensures PresetsDock.SetDockContext(dock, previewScene, programScene).dock.(target := dock.dock.target)
            == dock.dock
  {
  }
}
