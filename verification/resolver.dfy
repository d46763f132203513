/** The active-source resolver. On every preview-scene change the plugin
    re-enumerates the showing sources of the preview and program scenes,
    keeps those whose display name is registered with a non-null NDI
    receiver, and picks at most one of them as the PTZ target. The same
    algorithm is written out twice in the plugin (once for the presets dock,
    once for the preview); both are modelled by `Resolve`. */
module Resolver {
  import opened Common
  import opened Registry

  /** One item of an OBS scene: the source it shows and whether that source
      is currently showing. */
  datatype SceneItem = SceneItem(source: Ptr, showing: bool)

  /** The two registries: display name to NDI receiver, and source handle
      to display name. */
  datatype Registries = Registries(recvs: map<string, Ptr>, names: map<Ptr, string>)

  /** The text shown on the dock label: a status message, the display name
      of the resolved source, or the empty string a zero-filled context
      starts with. */
  datatype StatusLabel = NotSupportedText | OnProgramText | SourceName(name: string) | EmptyText

  /** The resolved target: `current_recv`, `current_source` and `ndi_name`. */
  datatype Target = Target(recv: Ptr, source: Ptr, text: StatusLabel)

  /** The three outcomes of a recomputation. */
  datatype Outcome =
    | NotSupported
    | OnProgram
    | Active(name: string, recv: Ptr, source: Ptr)

  /** The target every failure path installs. */
  const Unresolved: Target := Target(Null, Null, NotSupportedText)

  /** A target without a receiver has no source either, and its label is a
      status text rather than a source name. */
  predicate Consistent(t: Target) {
    t.recv == Null ==> t.source == Null && !t.text.SourceName?
  }

  /** Display name of a source, `""` when it is not registered. */
  function NameOf(reg: Registries, source: Ptr): string {
    Get(reg.names, source, "")
  }

  /** Receiver registered for a display name, null when there is none. */
  function RecvOf(reg: Registries, name: string): Ptr {
    Get(reg.recvs, name, Null)
  }

  /** Whether `EnumerateSceneItems` appends the name of this item. */
  predicate Listed(reg: Registries, item: SceneItem) {
    item.showing && RecvOf(reg, NameOf(reg, item.source)) != Null
  }

  /** `obs_scene_enum_items` driving `EnumerateSceneItems` over the items of
      one scene: the display names, in scene order, of the showing items
      whose name maps to a non-null receiver. */
  function EnumerateSceneItems(reg: Registries, items: seq<SceneItem>): (names: seq<string>)
    ensures |names| <= |items|
    ensures forall n :: n in names ==> RecvOf(reg, n) != Null
    ensures names == [] <==> forall i :: 0 <= i < |items| ==> !Listed(reg, items[i])
  {
    if items == [] then []
    else
      var rest := EnumerateSceneItems(reg, items[1..]);
      assert forall i :: 1 <= i < |items| ==> items[i] == items[1..][i - 1];
      if Listed(reg, items[0]) then [NameOf(reg, items[0].source)] + rest else rest
  }

  /** `CreateListOfNDINames`: a missing scene (a current preview or program
      source that is not a scene) enumerates nothing; a scene enumerates
      its items. */
  function ListOfNdiNames(reg: Registries, scene: Option<seq<SceneItem>>): (names: seq<string>)
    ensures scene.None? ==> names == []
    ensures scene.Some? ==> names == EnumerateSceneItems(reg, scene.value)
    ensures forall n :: n in names ==> RecvOf(reg, n) != Null
  {
    match scene
    case None => []
    case Some(items) => EnumerateSceneItems(reg, items)
  }

  /** The loop that looks for a preview name in the program list. */
  function AnyOnProgram(preview: seq<string>, program: seq<string>): (found: bool)
    ensures found <==> exists i :: 0 <= i < |preview| && preview[i] in program
  {
    if preview == [] then false
    else if preview[0] in program then true
    else
      var found := AnyOnProgram(preview[1..], program);
      assert forall i :: 1 <= i < |preview| ==> preview[i] == preview[1..][i - 1];
      found
  }

  /** `ptz_presets_set_dock_context` / `ptz_preview_set_context` as a
      decision over the two optional scenes (`None` when the frontend has no
      current preview, resp. program, scene) and the registries. */
  function Resolve(reg: Registries, preview: Option<seq<SceneItem>>,
                   program: Option<seq<SceneItem>>): (o: Outcome)
    ensures o.Active? ==> o.recv != Null && o.recv == RecvOf(reg, o.name)
    ensures o.Active? ==> o.source == ReverseLookup(reg.names, o.name)
    // studio mode: no PTZ source in the preview scene
    ensures preview.Some? && ListOfNdiNames(reg, preview) == [] ==> o == NotSupported
    // studio mode: a preview camera that is also live blocks control
    ensures preview.Some? && AnyOnProgram(ListOfNdiNames(reg, preview), ListOfNdiNames(reg, program))
            ==> o == OnProgram
    // outside studio mode the program scene is never reported as live
    ensures preview.None? ==> !o.OnProgram?
    // studio mode: an active target is the first preview name and is not live
    ensures preview.Some? && o.Active? ==>
              var pv := ListOfNdiNames(reg, preview);
              && |pv| > 0 && o.name == pv[0]
              && forall i :: 0 <= i < |pv| ==> pv[i] !in ListOfNdiNames(reg, program)
  {
    var pv := ListOfNdiNames(reg, preview);
    if preview.Some? && |pv| == 0 then NotSupported
    else
      var pg := ListOfNdiNames(reg, program);
      if preview.Some? && AnyOnProgram(pv, pg) then OnProgram
      else
        var name := if |pv| > 0 then pv[0] else if |pg| > 0 then pg[0] else "";
        var recv := RecvOf(reg, name);
        if recv != Null then Active(name, recv, ReverseLookup(reg.names, name))
        else NotSupported
  }

  /** The fields a recomputation writes for each outcome. */
  function TargetOf(o: Outcome): (t: Target)
    requires o.Active? ==> o.recv != Null
    ensures Consistent(t)
    ensures t.recv == Null <==> !o.Active?
    ensures o.Active? ==> t.text == SourceName(o.name) && t.source == o.source
    ensures o.OnProgram? ==> t.text == OnProgramText
    ensures o.NotSupported? ==> t == Unresolved
  {
    match o
    case NotSupported => Unresolved
    case OnProgram => Target(Null, Null, OnProgramText)
    case Active(name, recv, source) => Target(recv, source, SourceName(name))
  }

  /** The whole recomputation: the new target, whatever the old one was. */
  function Recompute(reg: Registries, preview: Option<seq<SceneItem>>,
                     program: Option<seq<SceneItem>>): (t: Target)
    ensures Consistent(t)
    ensures t.recv != Null ==>
              t.text.SourceName? && t.recv == RecvOf(reg, t.text.name)
              && t.source == ReverseLookup(reg.names, t.text.name)
  {
    TargetOf(Resolve(reg, preview, program))
  }

  /** Enumeration distributes over concatenation of item lists: names come
      out in scene order, each item contributing its own name or nothing. */
  lemma {:induction false} EnumerateAppend(reg: Registries, a: seq<SceneItem>, b: seq<SceneItem>)
    ensures EnumerateSceneItems(reg, a + b) == EnumerateSceneItems(reg, a) + EnumerateSceneItems(reg, b)
  {
    if a == [] {
      assert a + b == b;
    } else {
      assert (a + b)[1..] == a[1..] + b;
      EnumerateAppend(reg, a[1..], b);
    }
  }

  /** A single item contributes exactly its name when it is listed. */
  lemma EnumerateSingle(reg: Registries, item: SceneItem)
    ensures EnumerateSceneItems(reg, [item]) ==
              if Listed(reg, item) then [NameOf(reg, item.source)] else []
  {
    assert [item][1..] == [];
  }

  /** A name is enumerated exactly when some listed item carries it. */
  lemma {:induction false} EnumerateMembership(reg: Registries, items: seq<SceneItem>, n: string)
    ensures n in EnumerateSceneItems(reg, items) <==>
              exists i :: 0 <= i < |items| && Listed(reg, items[i]) && NameOf(reg, items[i].source) == n
  {
    if items != [] {
      EnumerateMembership(reg, items[1..], n);
      if n in EnumerateSceneItems(reg, items[1..]) {
        var i :| 0 <= i < |items[1..]| && Listed(reg, items[1..][i]) && NameOf(reg, items[1..][i].source) == n;
        assert items[i + 1] == items[1..][i];
      }
      if exists i :: 0 <= i < |items| && Listed(reg, items[i]) && NameOf(reg, items[i].source) == n {
        var i :| 0 <= i < |items| && Listed(reg, items[i]) && NameOf(reg, items[i].source) == n;
        if i > 0 {
          assert items[1..][i - 1] == items[i];
        }
      }
    }
  }

  /** An unlisted head item contributes nothing. */
  lemma EnumerateSkip(reg: Registries, items: seq<SceneItem>)
    requires items != [] && !Listed(reg, items[0])
    ensures EnumerateSceneItems(reg, items) == EnumerateSceneItems(reg, items[1..])
  {
  }

  /** The position of the first listed item, found by induction. */
  lemma {:induction false} FirstListed(reg: Registries, items: seq<SceneItem>) returns (i: nat)
    requires EnumerateSceneItems(reg, items) != []
    ensures i < |items| && Listed(reg, items[i])
    ensures forall j :: 0 <= j < i ==> !Listed(reg, items[j])
    ensures EnumerateSceneItems(reg, items)[0] == NameOf(reg, items[i].source)
  {
    if Listed(reg, items[0]) {
      i := 0;
    } else {
      EnumerateSkip(reg, items);
      var tail := items[1..];
      var k := FirstListed(reg, tail);
      i := k + 1;
      forall j | 0 <= j < i
        ensures !Listed(reg, items[j])
      {
        if j > 0 {
          assert items[j] == tail[j - 1];
        }
      }
      assert items[i] == tail[k];
    }
  }

  /** The first enumerated name belongs to the first listed item. */
  lemma EnumerateFirst(reg: Registries, items: seq<SceneItem>)
    requires EnumerateSceneItems(reg, items) != []
    ensures exists i :: 0 <= i < |items| && Listed(reg, items[i])
              && (forall j :: 0 <= j < i ==> !Listed(reg, items[j]))
              && EnumerateSceneItems(reg, items)[0] == NameOf(reg, items[i].source)
  {
    var i := FirstListed(reg, items);
  }

  /** Outside studio mode with no PTZ source on program, the code still
      looks up the empty name: a receiver registered under `""` becomes
      the active target, otherwise nothing is supported. */
  lemma EmptyNameFallback(reg: Registries, program: Option<seq<SceneItem>>)
    requires ListOfNdiNames(reg, program) == []
    ensures RecvOf(reg, "") != Null ==>
              Resolve(reg, None, program) == Active("", RecvOf(reg, ""), ReverseLookup(reg.names, ""))
    ensures RecvOf(reg, "") == Null ==> Resolve(reg, None, program) == NotSupported
  {
  }

  /** A showing source with no registered name reads as `""`, so it is
      listed under that name whenever `""` has a receiver. */
  lemma UnnamedSourceListedAsEmpty(reg: Registries, item: SceneItem)
    requires item.showing && item.source !in reg.names
    ensures EnumerateSceneItems(reg, [item]) == if RecvOf(reg, "") != Null then [""] else []
  {
    EnumerateSingle(reg, item);
  }

  /** Studio mode, converse direction: when the preview scene has a PTZ
      source and none of its PTZ sources is live, the target is the first of
      them, with its registered receiver. */
  lemma StudioModeActivatesFirstPreview(reg: Registries, preview: seq<SceneItem>,
                                        program: Option<seq<SceneItem>>)
    requires EnumerateSceneItems(reg, preview) != []
    requires forall n :: n in EnumerateSceneItems(reg, preview) ==> n !in ListOfNdiNames(reg, program)
    ensures var pv := EnumerateSceneItems(reg, preview);
            Resolve(reg, Some(preview), program) ==
              Active(pv[0], RecvOf(reg, pv[0]), ReverseLookup(reg.names, pv[0]))
  {
    var pv := EnumerateSceneItems(reg, preview);
    assert pv[0] in pv;
  }

  /** Outside studio mode the first PTZ source of the program scene is the
      target: preset recall then acts on the live camera. */
  lemma NonStudioModeUsesProgram(reg: Registries, program: Option<seq<SceneItem>>)
    requires ListOfNdiNames(reg, program) != []
    ensures var pg := ListOfNdiNames(reg, program);
            Resolve(reg, None, program) ==
              Active(pg[0], RecvOf(reg, pg[0]), ReverseLookup(reg.names, pg[0]))
  {
    var pg := ListOfNdiNames(reg, program);
    assert pg[0] in pg;
  }

  /** When the listed source is registered, the reverse lookup names a
      source registered under the chosen display name. */
  lemma ActiveSourceCarriesName(reg: Registries, preview: Option<seq<SceneItem>>,
                                program: Option<seq<SceneItem>>)
    requires Resolve(reg, preview, program).Active?
    requires Resolve(reg, preview, program).name in reg.names.Values
    ensures var o := Resolve(reg, preview, program);
            o.source in reg.names && reg.names[o.source] == o.name
  {
  }
}
