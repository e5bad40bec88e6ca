/** Per-session permissions. */
module Caps {
  datatype SessionCaps = SessionCaps(view: bool, input: bool, clipboard: bool, file: bool, audio: bool) {
    /** Everything permitted here is permitted by `other`. */
    predicate Within(other: SessionCaps) {
      && (view ==> other.view) && (input ==> other.input) && (clipboard ==> other.clipboard)
      && (file ==> other.file) && (audio ==> other.audio)
    }

    /** `clamp_to`: what both allow. */
    function ClampTo(granted: SessionCaps): (r: SessionCaps)
      ensures r.Within(this) && r.Within(granted)
      ensures forall c: SessionCaps :: c.Within(this) && c.Within(granted) ==> c.Within(r)
    {
      SessionCaps(view && granted.view, input && granted.input, clipboard && granted.clipboard,
                  file && granted.file, audio && granted.audio)
    }
  }
}
