/**
 The renderer: the state of the editor component (the live text, the history
 list it shows, its two panels and the shortcut settings) and its event
 handlers. Each handler that talks to the main process calls the matching
 method of `Main`, in the order the awaited IPC calls run.
 */
module Renderer {
  import opened Text
  import opened History
  import opened Shortcut
  import opened Visibility
  import opened MainProcess
  import Storage
  import Config

  /** The preview length the history panel passes to `truncate`. */
  const PREVIEW_LENGTH: nat := 60

  /** `truncate(s, len)`: the first line of `s`, cut to `len` characters
      followed by `...` when it is longer. */
  function Truncate(s: string, len: nat): (r: string)
    // A preview never spans two lines.
    ensures '\n' !in r
    ensures |r| <= len + 3
    // A preview that fits is the whole first line of `s`.
    ensures |r| <= len ==> r <= s && (r == s || s[|r|] == '\n')
    // Otherwise the first line is longer than `len` and its first `len`
    // characters are kept.
    ensures |r| > len ==> |s| > len && '\n' !in s[..len + 1] && r == s[..len] + "..."
    // A short single-line text is shown as it is.
    ensures '\n' !in s && |s| <= len ==> r == s
  {
    var line := Split(s, '\n')[0];
    SplitFirstIsPrefix(s, '\n');
    assert line <= s;
    if |line| > len then
      assert line[..len] == s[..len] && line[..len + 1] == s[..len + 1];
      line[..len] + "..."
    else
      line
  }

  /** The preview of a history entry in the history panel. */
  function Preview(e: HistoryEntry): (r: string)
    ensures '\n' !in r && |r| <= PREVIEW_LENGTH + 3
    // A one-line text of at most sixty characters is shown whole.
    ensures '\n' !in e.text && |e.text| <= PREVIEW_LENGTH ==> r == e.text
    // A first line of at most sixty characters is shown whole.
    ensures |r| <= PREVIEW_LENGTH ==> r <= e.text && (r == e.text || e.text[|r|] == '\n')
    // A longer first line is cut to its first sixty characters and `...`.
    ensures |r| > PREVIEW_LENGTH ==>
      |e.text| > PREVIEW_LENGTH && '\n' !in e.text[..PREVIEW_LENGTH + 1] && r == e.text[..PREVIEW_LENGTH] + "..."
  {
    Truncate(e.text, PREVIEW_LENGTH)
  }

  /** The component's state as a value. */
  datatype AppState = AppState(
    text: string,
    history: seq<HistoryEntry>,
    showHistory: bool,
    showSettings: bool,
    shortcut: string,
    shortcutInput: string,
    copyFeedback: bool)

  class App {
    /** The main process at the other end of the IPC bridge. */
    const main: Main
    var text: string
    var history: seq<HistoryEntry>
    var showHistory: bool
    var showSettings: bool
    /** The accelerator shown as current in the settings panel. */
    var shortcut: string
    var shortcutInput: string
    var copyFeedback: bool

    ghost function View(): AppState
      reads this
    {
      AppState(text, history, showHistory, showSettings, shortcut, shortcutInput, copyFeedback)
    }

    /** At most one of the two panels is open. */
    predicate PanelsExclusive()
      reads this
    {
      !(showHistory && showSettings)
    }

    /** What saving the draft `draft` did: nothing when it is blank, and
        otherwise the main process recorded it on the history it had loaded
        and the component shows the list it answered. */
    twostate predicate Saved(draft: string, id: string, createdAt: string)
      reads this`history, main
    {
      if IsBlank(draft) then
        main.State() == old(main.State()) && history == old(history)
      else
        var saved := Record(LoadHistory(old(main.historyFile)), HistoryEntry(id, draft, createdAt));
        main.State() == old(main.State()).(historyFile := Storage.Stored(saved)) && history == saved
    }

    /** The initial state of the `useState` hooks. */
    constructor (main: Main)
      ensures this.main == main
      ensures View() == AppState("", [], false, false, "", "", false)
      ensures PanelsExclusive()
    {
      this.main := main;
      text := "";
      history := [];
      showHistory := false;
      showSettings := false;
      shortcut := "";
      shortcutInput := "";
      copyFeedback := false;
    }

    /** The mount effect: fetch the history and the current accelerator. */
    method Mount()
      modifies this
      ensures View() == old(View()).(
        history := LoadHistory(main.historyFile),
        shortcut := Config.LoadConfig(main.configFile).shortcut,
        shortcutInput := Config.LoadConfig(main.configFile).shortcut)
    {
      var h := main.GetHistory();
      history := h;
      var s := main.GetShortcut();
      shortcut := s;
      shortcutInput := s;
    }

    /** The text area's `onChange`. */
    method EditText(value: string)
      modifies this
      ensures View() == old(View()).(text := value)
    {
      text := value;
    }

    /** The shortcut input's `onChange`. */
    method EditShortcutInput(value: string)
      modifies this
      ensures View() == old(View()).(shortcutInput := value)
    {
      shortcutInput := value;
    }

    /** `saveCurrentText`: send the text to `save-to-history` only when it is
        not blank. */
    method SaveCurrentText(id: string, createdAt: string)
      modifies this, main
      ensures Saved(old(text), id, createdAt)
      ensures View() == old(View()).(history := history)
    {
      if !IsBlank(text) {
        var updated := main.SaveToHistory(text, id, createdAt);
        history := updated;
      }
    }

    /** `handleNew`: save the draft, then clear the text. */
    method HandleNew(id: string, createdAt: string)
      modifies this, main
      ensures Saved(old(text), id, createdAt)
      ensures View() == old(View()).(text := "", history := history)
    {
      SaveCurrentText(id, createdAt);
      text := "";
    }

    /** `handleCopy`: copy a non-blank text and turn the feedback on. */
    method HandleCopy()
      modifies this, main
      ensures IsBlank(old(text)) ==> View() == old(View()) && main.State() == old(main.State())
      ensures !IsBlank(old(text)) ==>
        && main.State() == old(main.State()).(clipboard := old(text))
        && View() == old(View()).(copyFeedback := true)
    {
      if IsBlank(text) {
        return;
      }
      main.CopyToClipboard(text);
      copyFeedback := true;
    }

    /** `handleSelectHistory(entry)`: save the draft, load the entry's text
        and close the history panel. */
    method HandleSelectHistory(entry: HistoryEntry, id: string, createdAt: string)
      modifies this, main
      ensures Saved(old(text), id, createdAt)
      ensures View() == old(View()).(text := entry.text, showHistory := false, history := history)
      ensures PanelsExclusive()
    {
      if !IsBlank(text) {
        var updated := main.SaveToHistory(text, id, createdAt);
        history := updated;
      }
      text := entry.text;
      showHistory := false;
    }

    /** `handleDeleteHistory(id)`. */
    method HandleDeleteHistory(id: string)
      modifies this, main
      ensures history == Remove(LoadHistory(old(main.historyFile)), id)
      ensures main.State() == old(main.State()).(historyFile := Storage.Stored(history))
      ensures View() == old(View()).(history := history)
    {
      var updated := main.DeleteHistoryEntry(id);
      history := updated;
    }

    /** `handleSaveShortcut` as written: for a non-blank input it calls
        `set-shortcut` and, unless that rejects, shows the input as the
        current accelerator and closes the panel, whatever the boolean
        answer was. */
    method HandleSaveShortcut(first: RegisterOutcome, fallback: RegisterOutcome)
      returns (reply: Reply<bool>)
      modifies this, main
      ensures IsBlank(old(shortcutInput)) ==> View() == old(View()) && main.State() == old(main.State())
      ensures !IsBlank(old(shortcutInput)) && !IsValidShortcut(old(shortcutInput)) ==>
        && main.State() == old(main.State())
        && View() == old(View()).(shortcut := old(shortcutInput), showSettings := false)
      ensures !IsBlank(old(shortcutInput)) && IsValidShortcut(old(shortcutInput)) ==>
        var r := Register(old(shortcutInput), first, fallback);
        && main.State() == old(main.State()).(
             configFile := Storage.Stored(Config.ConfigRecord(old(shortcutInput))), bound := r.bound)
        && View() == (if r.completed then old(View()).(shortcut := old(shortcutInput), showSettings := false)
                      else old(View()))
      ensures old(PanelsExclusive()) ==> PanelsExclusive()
    {
      if !IsBlank(shortcutInput) {
        reply := main.SetShortcut(shortcutInput, first, fallback);
        if reply.Returned? {
          shortcut := shortcutInput;
          showSettings := false;
        }
      } else {
        reply := Returned(false);
      }
    }

    /** `handleSaveShortcut` as its panel means it: the current accelerator
        shown changes only when the main process accepted and saved the
        new one, so it always agrees with the saved configuration after a
        change. */
    method HandleSaveShortcutChecked(first: RegisterOutcome, fallback: RegisterOutcome)
      returns (reply: Reply<bool>)
      modifies this, main
      ensures IsBlank(old(shortcutInput)) || !IsValidShortcut(old(shortcutInput)) ==>
        View() == old(View()) && main.State() == old(main.State())
      ensures !IsBlank(old(shortcutInput)) && IsValidShortcut(old(shortcutInput)) ==>
        var r := Register(old(shortcutInput), first, fallback);
        && main.State() == old(main.State()).(
             configFile := Storage.Stored(Config.ConfigRecord(old(shortcutInput))), bound := r.bound)
        && View() == (if r.completed then old(View()).(shortcut := old(shortcutInput), showSettings := false)
                      else old(View()))
      // The accelerator shown changes only to the one now saved.
      ensures shortcut != old(shortcut) ==> shortcut == Config.LoadConfig(main.configFile).shortcut
      ensures old(PanelsExclusive()) ==> PanelsExclusive()
    {
      if !IsBlank(shortcutInput) {
        reply := main.SetShortcut(shortcutInput, first, fallback);
        if reply == Returned(true) {
          shortcut := shortcutInput;
          showSettings := false;
        }
      } else {
        reply := Returned(false);
      }
    }

    /** `handleKeyDown`: Escape closes the history panel if it is open,
        otherwise the settings panel if that is open, and otherwise asks the
        main process to hide the window. Other keys do nothing. */
    method HandleKeyDown(key: string)
      modifies this, main
      ensures key != "Escape" ==> View() == old(View()) && main.State() == old(main.State())
      ensures key == "Escape" && old(showHistory) ==>
        View() == old(View()).(showHistory := false) && main.State() == old(main.State())
      ensures key == "Escape" && !old(showHistory) && old(showSettings) ==>
        View() == old(View()).(showSettings := false) && main.State() == old(main.State())
      ensures key == "Escape" && !old(showHistory) && !old(showSettings) ==>
        View() == old(View()) && main.State() == old(main.State()).(win := Hide(old(main.win)))
      ensures old(PanelsExclusive()) ==> PanelsExclusive()
    {
      if key == "Escape" {
        if showHistory {
          showHistory := false;
        } else if showSettings {
          showSettings := false;
        } else {
          main.HideWindow();
        }
      }
    }

    /** The history button: toggle the history panel, close the settings. */
    method ToggleHistoryPanel()
      modifies this
      ensures View() == old(View()).(showHistory := !old(showHistory), showSettings := false)
      ensures PanelsExclusive()
    {
      showHistory := !showHistory;
      showSettings := false;
    }

    /** The settings button: toggle the settings panel, close the history. */
    method ToggleSettingsPanel()
      modifies this
      ensures View() == old(View()).(showSettings := !old(showSettings), showHistory := false)
      ensures PanelsExclusive()
    {
      showSettings := !showSettings;
      showHistory := false;
    }
  }

  /** Saving `J` from the settings panel, on a fresh install whose first
      registration would succeed: the main process refuses it and keeps
      the default, yet the panel shows `J` as the current accelerator. */
  method RefusedShortcutIsShown() returns (shown: string, configured: string)
    ensures shown == "J" && configured == DEFAULT_SHORTCUT && shown != configured
  {
    var main := new Main(Storage.Missing, Storage.Missing, "");
    var app := new App(main);
    app.Mount();
    app.EditShortcutInput("J");
    assert !IsWhiteSpace("J"[0]);
    BareKeyRefused();
    var reply := app.HandleSaveShortcut(Registered, Registered);
    shown := app.shortcut;
    configured := main.GetShortcut();
  }

  /** The same request through the checked handler leaves the shown
      accelerator in agreement with the configuration. */
  method RefusedShortcutIsNotShown() returns (shown: string, configured: string)
    ensures shown == configured == DEFAULT_SHORTCUT
  {
    var main := new Main(Storage.Missing, Storage.Missing, "");
    var app := new App(main);
    app.Mount();
    app.EditShortcutInput("J");
    assert !IsWhiteSpace("J"[0]);
    BareKeyRefused();
    var reply := app.HandleSaveShortcutChecked(Registered, Registered);
    shown := app.shortcut;
    configured := main.GetShortcut();
  }
}
