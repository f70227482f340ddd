/**
 The main process: the module-level state of the program (the window slot),
 the two files it owns, the accelerators it has registered with the OS, and
 the clipboard it writes to. Every IPC handler and application event is a
 method of `Main`.
 */
module MainProcess {
  import opened Storage
  import opened History
  import opened Config
  import opened Shortcut
  import opened Visibility
  import Text

  /** What one call of `globalShortcut.register(accelerator, toggleWindow)`
      does: it binds the accelerator, returns `false` because the
      accelerator is taken, or throws because it cannot be parsed. */
  datatype RegisterOutcome = Registered | Declined | Threw

  /** How the promise of an IPC handler settles: with the handler's value,
      or rejected because the handler threw. */
  datatype Reply<T> = Returned(value: T) | Rejected

  /** The accelerators bound after `registerShortcut`, and whether it
      returned normally rather than with an exception. */
  datatype Registration = Registration(bound: set<string>, completed: bool)

  /** `registerShortcut(shortcut)` given the outcome of the first `register`
      call and, when that one throws, of the fallback call. */
  function Register(shortcut: string, first: RegisterOutcome, fallback: RegisterOutcome): (r: Registration)
    // At most one accelerator is bound, the requested one or the default.
    ensures r.bound == {} || r.bound == {shortcut} || r.bound == {DEFAULT_SHORTCUT}
    // A successful first call binds the requested accelerator and nothing else.
    ensures first == Registered ==> r.bound == {shortcut} && r.completed
    // The fallback runs only when the first call throws; a `false` return
    // leaves nothing bound.
    ensures first == Declined ==> r.bound == {} && r.completed
    ensures first == Threw ==> r.bound == (if fallback == Registered then {DEFAULT_SHORTCUT} else {})
    // An exception escapes only when the fallback throws too.
    ensures !r.completed <==> first == Threw && fallback == Threw
  {
    match first
    case Registered => Registration({shortcut}, true)
    case Declined => Registration({}, true)
    case Threw =>
      match fallback
      case Registered => Registration({DEFAULT_SHORTCUT}, true)
      case Declined => Registration({}, true)
      case Threw => Registration({}, false)
  }

  /** The whole state of the main process as a value. */
  datatype MainState = MainState(
    configFile: ConfigFile,
    historyFile: HistoryFile,
    bound: set<string>,
    win: Slot,
    clipboard: string,
    quitRequested: bool)

  class Main {
    var configFile: ConfigFile
    var historyFile: HistoryFile
    /** The accelerators registered with the OS, each bound to `toggleWindow`. */
    var bound: set<string>
    var win: Slot
    /** The system clipboard, written by `clipboard.writeText` and never read. */
    var clipboard: string
    /** Whether `app.quit()` has been called. */
    var quitRequested: bool

    ghost function State(): MainState
      reads this
    {
      MainState(configFile, historyFile, bound, win, clipboard, quitRequested)
    }

    /** The process before `app.whenReady()` resolves: whatever is on disk,
        no window and no accelerator. */
    constructor (configFile: ConfigFile, historyFile: HistoryFile, clipboard: string)
      ensures State() == MainState(configFile, historyFile, {}, NoWindow, clipboard, false)
    {
      this.configFile := configFile;
      this.historyFile := historyFile;
      this.bound := {};
      this.win := NoWindow;
      this.clipboard := clipboard;
      this.quitRequested := false;
    }

    /** `createWindow`: the slot holds a new, not yet shown window. */
    method CreateWindow()
      modifies this
      ensures State() == old(State()).(win := CREATED)
    {
      win := CREATED;
    }

    /** The window's `ready-to-show` event. */
    method ReadyToShowEvent()
      modifies this
      ensures State() == old(State()).(win := ReadyToShow(old(win)))
      ensures old(win).Open? ==> win == Open(true)
    {
      if win.Open? {
        win := Open(true);
      }
    }

    /** `toggleWindow`, the action of every bound accelerator. */
    method ToggleWindow()
      modifies this
      ensures State() == old(State()).(win := Toggle(old(win)))
      ensures old(win).NoWindow? ==> win == Open(false)
      ensures old(win).Open? ==> win == Open(!old(win).visible)
    {
      if win.NoWindow? {
        CreateWindow();
        return;
      }
      if win.visible {
        win := Open(false);
      } else {
        win := Open(true);
      }
    }

    /** The window's `blur` event hides it. */
    method BlurEvent()
      modifies this
      ensures State() == old(State()).(win := Hide(old(win)))
      ensures old(win).Open? ==> win == Open(false)
    {
      if win.Open? {
        win := Open(false);
      }
    }

    /** The window's `closed` event empties the slot. */
    method ClosedEvent()
      modifies this
      ensures State() == old(State()).(win := Close(old(win)))
    {
      win := NoWindow;
    }

    /** The application's `activate` event. */
    method ActivateEvent()
      modifies this
      ensures State() == old(State()).(win := Activate(old(win)))
      ensures win.Open? && (old(win).Open? ==> win.visible)
    {
      if win.NoWindow? {
        CreateWindow();
      } else {
        win := Open(true);
      }
    }

    /** `registerShortcut`: unregister everything, register the accelerator,
        and register the default instead when that throws. */
    method RegisterShortcut(shortcut: string, first: RegisterOutcome, fallback: RegisterOutcome)
      returns (completed: bool)
      modifies this
      ensures var r := Register(shortcut, first, fallback);
        State() == old(State()).(bound := r.bound) && completed == r.completed
    {
      bound := {};
      completed := true;
      if first == Registered {
        bound := bound + {shortcut};
      } else if first == Threw {
        if fallback == Registered {
          bound := bound + {DEFAULT_SHORTCUT};
        } else if fallback == Threw {
          completed := false;
        }
      }
    }

    /** What `app.whenReady()` runs before installing the IPC handlers: load
        the configuration, create the window, register its accelerator. */
    method Start(first: RegisterOutcome, fallback: RegisterOutcome) returns (completed: bool)
      modifies this
      ensures var r := Register(LoadConfig(old(configFile)).shortcut, first, fallback);
        State() == old(State()).(win := CREATED, bound := r.bound) && completed == r.completed
    {
      var config := LoadConfig(configFile);
      CreateWindow();
      completed := RegisterShortcut(config.shortcut, first, fallback);
    }

    /** The `get-history` handler. */
    method GetHistory() returns (h: seq<HistoryEntry>)
      ensures h == LoadHistory(historyFile)
    {
      h := LoadHistory(historyFile);
    }

    /** The `save-to-history` handler, with the clock readings for the new
        entry's id and timestamp passed in. */
    method SaveToHistory(text: string, id: string, createdAt: string) returns (h: seq<HistoryEntry>)
      modifies this
      // A blank text writes nothing and answers the stored list.
      ensures Text.IsBlank(text) ==>
        h == LoadHistory(old(historyFile)) && State() == old(State())
      // Otherwise the new entry, holding the text exactly, is recorded on top
      // of the loaded list and the result is written back.
      ensures !Text.IsBlank(text) ==>
        && h == Record(LoadHistory(old(historyFile)), HistoryEntry(id, text, createdAt))
        && State() == old(State()).(historyFile := Stored(h))
      ensures !Text.IsBlank(text) ==> h[0].text == text && |h| <= MAX_ENTRIES
      ensures WithinCap(old(historyFile)) ==> WithinCap(historyFile)
      // What is stored afterwards is one step of `Save`, so the lemmas about
      // runs of saves apply to runs of calls.
      ensures LoadHistory(historyFile) == Save(LoadHistory(old(historyFile)), HistoryEntry(id, text, createdAt))
    {
      if Text.IsBlank(text) {
        h := LoadHistory(historyFile);
        return;
      }
      var history := LoadHistory(historyFile);
      var entry := HistoryEntry(id, text, createdAt);
      history := [entry] + history;
      if |history| > MAX_ENTRIES {
        history := history[..MAX_ENTRIES];
      }
      historyFile := Stored(history);
      h := history;
    }

    /** The `delete-history-entry` handler. */
    method DeleteHistoryEntry(id: string) returns (h: seq<HistoryEntry>)
      modifies this
      ensures h == Remove(LoadHistory(old(historyFile)), id)
      ensures State() == old(State()).(historyFile := Stored(h))
      ensures WithinCap(old(historyFile)) ==> WithinCap(historyFile)
    {
      var history := LoadHistory(historyFile);
      RemoveLength(history, id);
      history := Remove(history, id);
      historyFile := Stored(history);
      h := history;
    }

    /** The `copy-to-clipboard` handler. */
    method CopyToClipboard(text: string)
      modifies this
      ensures State() == old(State()).(clipboard := text)
    {
      clipboard := text;
    }

    /** The `get-shortcut` handler. */
    method GetShortcut() returns (s: string)
      ensures s == LoadConfig(configFile).shortcut
      ensures !configFile.Stored? ==> s == DEFAULT_SHORTCUT
    {
      s := LoadConfig(configFile).shortcut;
    }

    /** The `set-shortcut` handler: validate, save the configuration, then
        register the accelerator. */
    method SetShortcut(shortcut: string, first: RegisterOutcome, fallback: RegisterOutcome)
      returns (reply: Reply<bool>)
      modifies this
      // An accelerator outside the grammar is refused and changes nothing.
      ensures !IsValidShortcut(shortcut) ==> reply == Returned(false) && State() == old(State())
      // A valid one is saved before it is registered, so it is saved even
      // when registering throws.
      ensures IsValidShortcut(shortcut) ==>
        var r := Register(shortcut, first, fallback);
        && State() == old(State()).(configFile := Stored(ConfigRecord(shortcut)), bound := r.bound)
        && reply == (if r.completed then Returned(true) else Rejected)
      ensures reply == Returned(true) ==>
        && LoadConfig(configFile).shortcut == shortcut
        && (first == Registered ==> bound == {shortcut})
        && (first == Declined ==> bound == {})
    {
      var valid := IsValidShortcut(shortcut);
      if !valid {
        reply := Returned(false);
        return;
      }
      var config := LoadConfig(configFile);
      config := config.(shortcut := shortcut);
      configFile := Stored(config);
      var completed := RegisterShortcut(shortcut, first, fallback);
      reply := if completed then Returned(true) else Rejected;
    }

    /** The `hide-window` handler. */
    method HideWindow()
      modifies this
      ensures State() == old(State()).(win := Hide(old(win)))
    {
      if win.Open? {
        win := Open(false);
      }
    }

    /** The application's `will-quit` event releases every accelerator. */
    method WillQuit()
      modifies this
      ensures State() == old(State()).(bound := {})
    {
      bound := {};
    }

    /** The application's `window-all-closed` event: quit, except on macOS. */
    method WindowAllClosed(isDarwin: bool)
      modifies this
      ensures isDarwin ==> State() == old(State())
      ensures !isDarwin ==> State() == old(State()).(quitRequested := true, bound := {})
    {
      if !isDarwin {
        quitRequested := true;
        WillQuit();
      }
    }
  }

  /** After `set-shortcut` accepts an accelerator, `get-shortcut` answers it
      (even when registering it threw), and the one bound is the new one, or the default when the
      first registration threw, or none when it was declined. */
  method SetThenGet(m: Main, s: string, first: RegisterOutcome, fallback: RegisterOutcome)
    returns (got: string)
    modifies m
    ensures IsValidShortcut(s) ==> got == s
    ensures IsValidShortcut(s) && first == Registered ==> m.bound == {s}
    ensures IsValidShortcut(s) && first == Threw && fallback == Registered ==> m.bound == {DEFAULT_SHORTCUT}
    ensures IsValidShortcut(s) && first == Threw && fallback != Registered ==> m.bound == {}
    ensures IsValidShortcut(s) && first == Declined ==> m.bound == {}
    ensures !IsValidShortcut(s) ==> got == LoadConfig(old(m.configFile)).shortcut && m.bound == old(m.bound)
  {
    var reply := m.SetShortcut(s, first, fallback);
    got := m.GetShortcut();
  }
}
