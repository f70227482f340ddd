/**
 The single editor window of the main process as the module-level slot
 `win: BrowserWindow | null` sees it: no window, or a window that is shown or
 hidden. Each event is a function from the slot before to the slot after.
 */
module Visibility {

  datatype Slot = NoWindow | Open(visible: bool)

  /** `createWindow`: a new window, constructed with `show: false`. */
  const CREATED: Slot := Open(false)

  /** `ready-to-show`: `win?.show()`. */
  function ReadyToShow(w: Slot): Slot
  {
    if w.Open? then Open(true) else w
  }

  /** `toggleWindow`: create a window when there is none, otherwise hide a
      shown window or show a hidden one. */
  function Toggle(w: Slot): Slot
  {
    match w
    case NoWindow => CREATED
    case Open(v) => Open(!v)
  }

  /** `win?.hide()`, run on `blur` and by the `hide-window` handler. */
  function Hide(w: Slot): Slot
  {
    if w.Open? then Open(false) else w
  }

  /** The `activate` event: create a window when there is none, otherwise
      show it. */
  function Activate(w: Slot): Slot
  {
    if w.NoWindow? then CREATED else Open(true)
  }

  /** The window's `closed` event empties the slot. */
  function Close(w: Slot): Slot
  {
    NoWindow
  }

  /** Toggling with no window creates one, hidden until it is ready to show. */
  lemma ToggleCreates()
    ensures Toggle(NoWindow) == Open(false)
    ensures ReadyToShow(Toggle(NoWindow)) == Open(true)
  {
  }

  /** Toggling an existing window flips its visibility and keeps the window;
      toggling twice gives the window back as it was. */
  lemma ToggleFlips(w: Slot)
    requires w.Open?
    ensures Toggle(w).Open? && Toggle(w).visible == !w.visible
    ensures Toggle(Toggle(w)) == w
  {
  }

  /** After `activate` there is a window, shown at once if it existed and
      shown when ready if it was just created. */
  lemma ActivateShows(w: Slot)
    ensures Activate(w).Open?
    ensures Activate(w).visible <==> w.Open?
    ensures ReadyToShow(Activate(w)) == Open(true)
  {
  }

  /** `blur` and `hide-window` leave an existing window hidden, do nothing
      without one, and hiding twice is hiding once. */
  lemma HideHides(w: Slot)
    ensures w.Open? ==> Hide(w) == Open(false)
    ensures w.NoWindow? ==> Hide(w) == NoWindow
    ensures Hide(Hide(w)) == Hide(w)
  {
  }

  /** `closed` empties the slot, so the next toggle or activate creates a
      new window. */
  lemma CloseEmpties(w: Slot)
    ensures Close(w) == NoWindow
    ensures Toggle(Close(w)) == CREATED && Activate(Close(w)) == CREATED
  {
  }
}
