/** The preview context of `ptz-preview.cpp`: the process-wide resolved
    target that the controller dock reads, the two registries it resolves
    against, and the notifications that keep them current. The host's scene
    graph enters as the optional preview and program item lists. */
module Preview {
  import opened Common
  import opened Registry
  import opened Resolver

  /** The static `context` together with the static `ndi_recv_map` and
      `source_ndi_map` of the preview. */
  datatype PreviewState = PreviewState(target: Target, reg: Registries)

  /** `ptz_preview_init`: the first call allocates a context with no
      receiver, no source and the not-supported text; later calls return
      early and keep the existing context. */
  function Init(existing: Option<Target>): (t: Target)
    ensures existing.None? ==> t.recv == Null && t.source == Null && t.text == NotSupportedText
    ensures existing.Some? ==> t == existing.value
  {
    match existing
    case None => Unresolved
    case Some(ctx) => ctx
  }

  /** A second initialisation is a no-op, and the fresh context already
      satisfies the target invariant. */
  lemma InitIdempotent(existing: Option<Target>)
    ensures Init(Some(Init(existing))) == Init(existing)
    ensures Consistent(Init(None))
  {
  }

  /** `ptz_preview_set_context`: recompute the target from scratch. The
      registries are only read. */
  function SetContext(st: PreviewState, preview: Option<seq<SceneItem>>,
                      program: Option<seq<SceneItem>>): (r: PreviewState)
    ensures r.reg == st.reg
    ensures Consistent(r.target)
    ensures r.target.recv == Null ==> r.target.source == Null
    ensures r.target.recv != Null ==>
              && r.target.text.SourceName?
              && r.target.recv == RecvOf(st.reg, r.target.text.name)
              && r.target.source == ReverseLookup(st.reg.names, r.target.text.name)
  {
    st.(target := Recompute(st.reg, preview, program))
  }

  /** The recomputation does not depend on the previous target, so with the
      registries and scenes unchanged a second run changes nothing. */
  lemma SetContextDeterministic(st1: PreviewState, st2: PreviewState,
                                preview: Option<seq<SceneItem>>, program: Option<seq<SceneItem>>)
    requires st1.reg == st2.reg
    ensures SetContext(st1, preview, program) == SetContext(st2, preview, program)
    ensures SetContext(SetContext(st1, preview, program), preview, program)
            == SetContext(st1, preview, program)
  {
  }

  /** `ptz_preview_set_ndiname_recv_map`: register (or overwrite) the
      receiver of a display name, then recompute the target. */
  function SetNdiNameRecvMap(st: PreviewState, name: string, recv: Ptr,
                             preview: Option<seq<SceneItem>>,
                             program: Option<seq<SceneItem>>): (r: PreviewState)
    ensures RecvOf(r.reg, name) == recv
    ensures forall n :: n != name ==> RecvOf(r.reg, n) == RecvOf(st.reg, n)
    ensures r.reg.names == st.reg.names
    ensures r.target == Recompute(r.reg, preview, program)
  {
    SetContext(st.(reg := st.reg.(recvs := Set(st.reg.recvs, name, recv))), preview, program)
  }

  /** `ptz_preview_set_source_ndiname_map`: register (or overwrite) the
      display name of a source; the target is not recomputed. */
  function SetSourceNdiNameMap(st: PreviewState, source: Ptr, name: string): (r: PreviewState)
    ensures NameOf(r.reg, source) == name
    ensures forall s :: s != source ==> NameOf(r.reg, s) == NameOf(st.reg, s)
    ensures r.reg.recvs == st.reg.recvs
    ensures r.target == st.target
  {
    st.(reg := st.reg.(names := Set(st.reg.names, source, name)))
  }

  /** `ptz_preview_source_deleted`: forget the source; if it is the current
      source, drop the target to not-supported. The endpoint registry is
      left alone. */
  function SourceDeleted(st: PreviewState, source: Ptr): (r: PreviewState)
    ensures source !in r.reg.names
    ensures forall s :: s != source ==> NameOf(r.reg, s) == NameOf(st.reg, s)
    ensures r.reg.recvs == st.reg.recvs
    ensures st.target.source == source ==>
              r.target.recv == Null && r.target.source == Null && r.target.text == NotSupportedText
    ensures st.target.source != source ==> r.target == st.target
    ensures Consistent(st.target) ==> Consistent(r.target)
    ensures source != Null ==> r.target.source != source
  {
    var reg := st.reg.(names := Remove(st.reg.names, source));
    if st.target.source == source then PreviewState(Unresolved, reg)
    else PreviewState(st.target, reg)
  }

  /** `ptz_on_scene_changed`: only a preview-scene change recomputes the
      target (the dock repaint that follows is not modelled). */
  function OnSceneChanged(st: PreviewState, event: FrontendEvent,
                          preview: Option<seq<SceneItem>>,
                          program: Option<seq<SceneItem>>): (r: PreviewState)
    ensures event.OtherFrontendEvent? ==> r == st
    ensures event.PreviewSceneChanged? ==> r.reg == st.reg && Consistent(r.target)
  {
    match event
    case PreviewSceneChanged => SetContext(st, preview, program)
    case OtherFrontendEvent => st
  }

  /** Once a source has been deleted, no later recomputation can make it the
      current source again until it is registered anew. */
  lemma DeletedSourceNeverResolved(st: PreviewState, source: Ptr,
                                   preview: Option<seq<SceneItem>>,
                                   program: Option<seq<SceneItem>>)
    requires source != Null
    ensures SetContext(SourceDeleted(st, source), preview, program).target.source != source
  {
    var del := SourceDeleted(st, source);
    var o := Resolve(del.reg, preview, program);
    if o.Active? {
      ReverseLookupAfterRemove(st.reg.names, source, o.name);
    }
  }

  /** Every operation of the preview keeps the target invariant, starting
      from a fresh context. */
  lemma OperationsKeepConsistent(st: PreviewState, source: Ptr, name: string, recv: Ptr,
                                 preview: Option<seq<SceneItem>>,
                                 program: Option<seq<SceneItem>>)
    requires Consistent(st.target)
    ensures Consistent(SetNdiNameRecvMap(st, name, recv, preview, program).target)
    ensures Consistent(SetSourceNdiNameMap(st, source, name).target)
    ensures Consistent(SourceDeleted(st, source).target)
    ensures Consistent(SetContext(st, preview, program).target)
  {
  }
}
