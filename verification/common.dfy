/** Small shared vocabulary: optional values, nullable handles and the
    clamping helper used by both the colour decoder and the zoom logic. */
module Common {

  /** A value that may be absent. */
  datatype Option<+T> = None | Some(value: T)

  /** An opaque host or transport handle (an `obs_source_t *` or an
      `NDIlib_recv_instance_t`). Handles are compared and ordered by their
      address, so a natural number stands in for one; `Null` is the null
      pointer, which is also what a default-constructed handle is. */
  type Ptr = nat

  const Null: Ptr := 0

  /** A call into the NDI library that a polling step issues:
      `recv_ptz_recall_preset(recv, index, speed)`. */
  datatype NdiCall = RecallPreset(recv: Ptr, index: int, speed: int)

  /** Recall speed both presets docks pass to the NDI preset recall. */
  const RecallSpeed: int := 5

  /** The frontend events a scene-change callback can receive. */
  datatype FrontendEvent = PreviewSceneChanged | OtherFrontendEvent

  /** `std::clamp(v, lo, hi)` and Qt's `qBound(lo, v, hi)`, which agree
      whenever `lo <= hi`. */
  function Clamp(v: int, lo: int, hi: int): (r: int)
    requires lo <= hi
    ensures lo <= r <= hi
    ensures lo <= v <= hi ==> r == v
    ensures v < lo ==> r == lo
    ensures hi < v ==> r == hi
  {
    if v < lo then lo else if hi < v then hi else v
  }

  /** Clamping never reverses the order of two inputs. */
  lemma ClampMonotonic(a: int, b: int, lo: int, hi: int)
    requires lo <= hi
    requires a <= b
    ensures Clamp(a, lo, hi) <= Clamp(b, lo, hi)
  {
  }
}
