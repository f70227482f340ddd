# One-Time Editor: a Dafny model of the main process and the editor state

One-Time Editor is a small Electron application: a frameless, always-on-top
text window toggled by one global accelerator. Notes the user moves away from
are kept in a newest-first history of at most one hundred entries. This
project models the two sides of it:

- **The main process** (`electron/main.ts`) is the class `MainProcess.Main`.
  Its fields are:
  - the window slot (`NoWindow`, or a window that is shown or hidden);
  - the two JSON files it owns, each missing, unreadable or holding a value;
  - the set of accelerators bound with the OS;
  - the clipboard it writes to;
  - whether a quit was requested.

  Every IPC handler and application event is a method that states the whole
  new state. The pure parts live in their own modules:
  - `History`: loading, recording a save with the cap, and the delete filter;
  - `Config`: the configuration and its single default;
  - `Shortcut`: the accelerator grammar of `set-shortcut`;
  - `Visibility`: the window transitions;
  - `Text`: JavaScript's `trim` and `split`;
  - `Storage`: the shared "missing, corrupt or stored" file shape.
- **The renderer component** (`src/App.tsx`) is the class `Renderer.App`.
  - Its fields are the component's `useState` values.
  - It holds the `Main` instance it talks to over IPC.
  - Each handler is a method that calls `Main`'s methods in the order the
    awaited IPC calls run.
  - `truncate`, the history-preview helper, is the function `Renderer.Truncate`.

Inputs the program reads from outside are parameters:
- what `globalShortcut.register` does (binds, returns `false`, or throws);
- the id and timestamp of a new history entry;
- the platform test of `window-all-closed`;
- the initial contents of the two files.

Behaviour of the code that the model keeps:
- The fallback to `CommandOrControl+M` runs only when `register` throws. When
  it returns `false`, `registerShortcut` leaves no accelerator bound.
- A valid accelerator is saved to the configuration before it is registered.
  So when both registrations throw, `set-shortcut` rejects, yet
  `get-shortcut` answers the new accelerator.
- The modifier names accepted are `CommandOrControl`, `Control`, `Alt`,
  `Shift`, `Meta` and `Super`. `Command` is not among them.
- The key is a single character of `[A-Za-z0-9]`, so `Alt+Space`, which the
  settings panel suggests as an example, is refused (`Shortcut.HintAltSpaceRefused`).
- The configuration record holds only the accelerator.
- A window is created hidden (`show: false`) and shown at `ready-to-show`.
- A blank text is never saved. A saved text is stored exactly as typed,
  untrimmed.

All eight files are verified together, from this directory:

```
dafny verify --resource-limit 2000000 --verification-time-limit 0 --warn-contradictory-assumptions *.dfy
```

No proof relies on the contradictory-assumptions flag or on a particular
solver seed; plain `dafny verify *.dfy` verifies the same files.

## Model

| member | source | states |
|---|---|---|
| Text.TrimStart | src/App.tsx:29 | the result is a suffix of the input, everything removed is white space, and it does not start with white space |
| Text.TrimEnd | src/App.tsx:29 | the result is a prefix of the input, everything removed is white space, and it does not end with white space |
| Text.Trim | electron/main.ts:122 | `trim` gives a slice of the input, everything outside it is white space, and the slice neither starts nor ends with white space |
| Text.TrimEmptyIffAllWhiteSpace | electron/main.ts:122 | `trim` leaves the empty string exactly when every character is white space or a line terminator, so the blank test `!text.trim()` is the model's `IsBlank` |
| Text.IsBlank | electron/main.ts:122 | (predicate) the blank test `!text.trim()`: every character is white space or a line terminator; `TrimEmptyIffAllWhiteSpace` proves it is exactly `trim` giving the empty string |
| Text.Split | src/App.tsx:94 | `split` gives at least one piece and no piece contains the separator |
| Text.JoinSplit | src/App.tsx:94 | joining the pieces of a split with the separator gives back the original string |
| Text.SplitJoin | src/App.tsx:94 | splitting separator-free pieces joined by the separator gives back the pieces |
| Text.SplitFirstIsPrefix | src/App.tsx:94 | the first piece of a split is a separator-free prefix that is either the whole string or followed by the separator |
| Storage.LoadOr | electron/main.ts:24-31 | a loader answers the parsed content of a stored file and its default when the file is missing or any read or parse step throws |
| History.LoadHistory | electron/main.ts:37-44 | `loadHistory` answers the stored list, or the empty list for a missing or unreadable file |
| History.Record | electron/main.ts:129-133 | after a save the list has at most 100 entries: the new entry first, then the first 99 of the previous list in their order |
| History.Remove | electron/main.ts:140 | no entry of the filtered list carries the deleted id |
| History.RemoveMembers | electron/main.ts:140 | an entry survives a delete if and only if it was in the list and carries another id |
| History.RemoveAppend | electron/main.ts:140 | the filter distributes over concatenation, so surviving entries keep their relative order |
| History.RemoveAbsent | electron/main.ts:140 | deleting an id no entry carries returns the list unchanged |
| History.RemoveIdempotent | electron/main.ts:138-142 | deleting the same id twice gives the same list as deleting it once |
| History.RemoveLength | electron/main.ts:140 | the list shrinks by exactly the number of entries carrying the id |
| History.RecordTake | electron/main.ts:129-133 | recording onto a list already cut at 100 equals recording onto the whole list and cutting once |
| History.Save | electron/main.ts:121-136 | (function) one `save-to-history` step on a loaded list: a blank text leaves it alone, any other is recorded with `Record`; `Main.SaveToHistory` ensures the stored list after a call is this step |
| History.SaveAll | electron/main.ts:121-136 | (function) a run of `save-to-history` steps, the first request applied first; its retention policy is `SaveAllKeepsMostRecent` |
| History.SaveAllLast | electron/main.ts:121-136 | the last of a run of non-blank saves is recorded on top of the list the earlier saves left |
| History.SaveAllKeepsMostRecent | electron/main.ts:121-136 | after any run of non-blank saves the history is the saved entries newest first, then the earlier entries, cut at 100 |
| Config.LoadConfig | electron/main.ts:24-31 | `loadConfig` answers the stored record, and `CommandOrControl+M` as the accelerator when the file is missing or unreadable |
| Config.SaveThenLoad | electron/main.ts:33-35 | what `saveConfig` writes is what the next `loadConfig` reads |
| Shortcut.ModifiersHaveNoPlus | electron/main.ts:155 | no modifier name contains `+` |
| Shortcut.Accepts | electron/main.ts:155 | (predicate) the pattern over a list of modifier names, read as one or more modifier-plus-`+` pairs followed by one character of `[A-Za-z0-9]`; its split-based characterisation is `ValidIffSegmentsValid` |
| Shortcut.IsValidShortcut | electron/main.ts:155 | (predicate) the `set-shortcut` test: the pattern with `CommandOrControl`, `Control`, `Alt`, `Shift`, `Meta` and `Super` |
| Shortcut.AcceptedHasAcceptedSegments | electron/main.ts:155 | a string the pattern accepts splits on `+` into at least two pieces, all modifiers except a last single key character |
| Shortcut.AcceptedSegmentsAreAccepted | electron/main.ts:155 | conversely, every string whose `+`-pieces have that form is accepted by the pattern |
| Shortcut.ValidIffSegmentsValid | electron/main.ts:155 | the pattern of `set-shortcut` and the split-based reading accept exactly the same strings |
| Shortcut.BareKeyRefused | electron/main.ts:155 | a key without a modifier (`J`) is refused |
| Shortcut.ControlJAccepted | electron/main.ts:155 | `Control+J` is accepted |
| Shortcut.DefaultAccepted | electron/main.ts:107 | the default and fallback accelerator `CommandOrControl+M` passes the validation |
| Shortcut.HintAltSpaceRefused | src/App.tsx:225 | `Alt+Space`, suggested under the settings input, is refused by the validation of electron/main.ts:155 |
| Shortcut.SplitsInto | electron/main.ts:155 | a string built by joining `+`-free pieces splits on `+` into exactly those pieces, which the example lemmas combine with `ValidIffSegmentsValid` |
| Visibility.ReadyToShow | electron/main.ts:67-70 | (function) `ready-to-show` shows an existing window and does nothing without one |
| Visibility.Toggle | electron/main.ts:88-99 | (function) `toggleWindow`: with no window a new hidden one, otherwise the visibility flipped; its properties are `ToggleCreates` and `ToggleFlips` |
| Visibility.Hide | electron/main.ts:164-166 | (function) `win?.hide()`, shared by `blur` and `hide-window`; its properties are `HideHides` |
| Visibility.Activate | electron/main.ts:175-182 | (function) `activate`: a new hidden window when there is none, otherwise the window shown; its properties are `ActivateShows` |
| Visibility.Close | electron/main.ts:77-79 | (function) `closed`: the slot becomes empty; its properties are `CloseEmpties` |
| Visibility.ToggleCreates | electron/main.ts:88-92 | toggling with no window creates a hidden one that is shown when ready |
| Visibility.ToggleFlips | electron/main.ts:93-98 | toggling an existing window flips its visibility, and two toggles restore it |
| Visibility.ActivateShows | electron/main.ts:175-182 | after `activate` a window exists; it is shown at once if it existed, and shown when ready if it was created |
| Visibility.HideHides | electron/main.ts:72-75 | `blur` and `hide-window` leave an existing window hidden, are no-ops without one, and are idempotent |
| Visibility.CloseEmpties | electron/main.ts:77-79 | `closed` empties the slot, so the next toggle or activate creates a window |
| MainProcess.Register | electron/main.ts:101-109 | at most one accelerator ends up bound; a successful first call binds the requested one and nothing else; a `false` return binds nothing; after a throw only the default can be bound, exactly when the fallback succeeds; an exception escapes only when both calls throw |
| MainProcess.Main.constructor | electron/main.ts:7 | before startup there is no window and no accelerator; the files hold what is on disk |
| MainProcess.Main.CreateWindow | electron/main.ts:50-65 | the slot holds a new window that is not shown, and nothing else changes |
| MainProcess.Main.ReadyToShowEvent | electron/main.ts:67-70 | an existing window becomes shown, and nothing else changes |
| MainProcess.Main.ToggleWindow | electron/main.ts:88-99 | with no window one is created hidden; otherwise its visibility is flipped; nothing else changes |
| MainProcess.Main.BlurEvent | electron/main.ts:72-75 | an existing window becomes hidden, and nothing else changes |
| MainProcess.Main.ClosedEvent | electron/main.ts:77-79 | the slot becomes `Close` of the old slot, that is empty, and nothing else changes |
| MainProcess.Main.ActivateEvent | electron/main.ts:175-182 | afterwards a window exists, and it is shown if it existed before; nothing else changes |
| MainProcess.Main.RegisterShortcut | electron/main.ts:101-109 | the bound set becomes the result of unregister-all then register with fallback; the method completes unless both calls throw |
| MainProcess.Main.Start | electron/main.ts:111-114 | startup creates a hidden window and registers the accelerator of the loaded configuration |
| MainProcess.Main.GetHistory | electron/main.ts:117-119 | `get-history` answers the loaded list and changes nothing |
| MainProcess.Main.SaveToHistory | electron/main.ts:121-136 | a blank text writes nothing and answers the stored list; otherwise the entry, text untrimmed, goes first, the list is cut at 100 and written back; the cap is preserved; the stored list afterwards is one `Save` step, so `SaveAllKeepsMostRecent` describes any run of calls |
| MainProcess.Main.DeleteHistoryEntry | electron/main.ts:138-143 | the filtered list is written back and answered, and nothing else changes; the cap is preserved |
| MainProcess.Main.CopyToClipboard | electron/main.ts:145-147 | the clipboard holds the text, and nothing else changes |
| MainProcess.Main.GetShortcut | electron/main.ts:149-151 | `get-shortcut` answers the configured accelerator, or the default when no configuration is stored |
| MainProcess.Main.SetShortcut | electron/main.ts:153-162 | an invalid accelerator answers false and changes nothing; a valid one is saved and then registered, and the reply is true unless registration throws |
| MainProcess.Main.HideWindow | electron/main.ts:164-166 | an existing window becomes hidden, and nothing else changes |
| MainProcess.Main.WillQuit | electron/main.ts:184-186 | every accelerator is released, and nothing else changes |
| MainProcess.Main.WindowAllClosed | electron/main.ts:169-173 | on macOS nothing changes; elsewhere the application quits and its accelerators are released |
| MainProcess.SetThenGet | electron/main.ts:149-162 | after `set-shortcut` accepts an accelerator, `get-shortcut` answers it, and the bound set is it when the first `register` binds it, the default after a throw whose fallback registers, and nothing after a `false` return or a refused or throwing fallback; an invalid one leaves both as they were |
| Renderer.Truncate | src/App.tsx:93-96 | a preview has no newline; it is the whole first line when that fits in `len`, and otherwise the first `len` characters of the first line followed by `...` |
| Renderer.Preview | src/App.tsx:184 | a history preview (`truncate(entry.text, 60)`) has no newline and at most 63 characters; when the first line is longer than 60 characters, its first 60 characters followed by `...`; otherwise the whole first line |
| Renderer.App.constructor | src/App.tsx:5-11 | the component starts with empty text, history and accelerator and with both panels closed |
| Renderer.App.Mount | src/App.tsx:14-20 | mounting shows the stored history and the configured accelerator, in both the current display and the input |
| Renderer.App.EditText | src/App.tsx:161 | typing replaces the text and nothing else |
| Renderer.App.EditShortcutInput | src/App.tsx:221 | typing in the shortcut input replaces the input and nothing else |
| Renderer.App.SaveCurrentText | src/App.tsx:28-33 | a blank text calls nothing; a non-blank one is recorded by the main process and the answered list is shown; nothing else changes |
| Renderer.App.HandleNew | src/App.tsx:35-39 | the text is empty afterwards, and a non-blank previous text was recorded first |
| Renderer.App.HandleCopy | src/App.tsx:41-46 | a blank text changes nothing; otherwise the clipboard holds the text and the copy feedback is on |
| Renderer.App.HandleSelectHistory | src/App.tsx:48-56 | the text becomes the entry's text and the history panel closes, after a non-blank previous text was recorded |
| Renderer.App.HandleDeleteHistory | src/App.tsx:58-62 | the main process drops the entries with the id and the component shows the list it answers |
| Renderer.App.HandleSaveShortcut | src/App.tsx:64-70 | a blank input changes nothing; otherwise `set-shortcut` runs and, unless it rejects, the input is shown as current and the panel closes, even when the answer was false |
| Renderer.App.HandleSaveShortcutChecked | src/App.tsx:64-70 | as `HandleSaveShortcut`, except that a refused accelerator changes nothing, so a changed display always equals the saved configuration |
| Renderer.App.HandleKeyDown | src/App.tsx:72-82 | Escape closes the history panel if open, else the settings panel if open, else hides the window, one change at a time; other keys do nothing |
| Renderer.App.ToggleHistoryPanel | src/App.tsx:134 | the history panel flips, settings closes, and both panels are never open together |
| Renderer.App.ToggleSettingsPanel | src/App.tsx:144 | the settings panel flips, history closes, and both panels are never open together |
| Renderer.RefusedShortcutIsShown | src/App.tsx:64-70 | after mounting on a fresh install, saving `J` shows `J` as current while the configuration keeps `CommandOrControl+M` |
| Renderer.RefusedShortcutIsNotShown | src/App.tsx:64-70 | after mounting, the same request through the checked handler leaves the shown accelerator equal to the configured default |

## Left out

- File I/O and JSON: `existsSync`, `readFileSync`, `writeFileSync`, `JSON.parse` and `JSON.stringify` are abstracted. A file is missing, corrupt (any read or parse failure) or holds a well-typed value. Every write succeeds: a `writeFileSync` that throws (electron/main.ts:34, :47) is not modelled. Such a throw would reject `save-to-history`, `delete-history-entry` or `set-shortcut`, would skip `registerShortcut` in `set-shortcut` (electron/main.ts:160), and would leave the text uncleared in `handleNew` (src/App.tsx:36-37).
  - A file that parses into some other JSON value is not modelled.
  - Extra fields that a real `config.json` might carry through `loadConfig` and `saveConfig` are dropped.
- `BrowserWindow` options other than `show: false`, `loadURL`/`loadFile` and the dev-server choice are left out; they are platform plumbing. Focus (`win.focus()`) is not modelled.
- `globalShortcut` and `clipboard` are not real OS calls here.
  - Registration outcomes are inputs, and the clipboard is a sink that is written and never read.
  - When both registrations throw at startup, the IPC handlers that `whenReady` would install afterwards are never installed. `Main.Start` reports this as `completed == false`, but the model does not prevent later handler calls.
- `Date.now()` ids and `toISOString()` timestamps are parameters. Id uniqueness is not claimed. `formatDate` is left out, since it is locale formatting.
- React rendering, JSX, focus management and the 1500 ms `setTimeout` that clears the copy feedback are left out.
- The interleaving of asynchronous IPC promises is left out. Each handler runs to completion in call order.
- Renderer.Truncate: lengths count Unicode code points, while JavaScript's `length` and `slice` count UTF-16 code units. `len` is a natural number; a negative `len` is not modelled.
- MainProcess.Main.WindowAllClosed: `app.quit()` leads to `will-quit`, modelled as releasing the accelerators at once. Shutdown itself is not modelled.
- `electron/preload.ts` and `src/types.d.ts` are not part of this model. They hold the IPC bridge and type declarations only. `syncText`, `getConfig` and `setAlwaysOnTop` are declared there but implemented nowhere, so there is nothing to model.
- The array mutation of `save-to-history` (`unshift`, then `splice(100)`) is modelled on sequence values, which give the same result for a list owned by one handler.

## Findings

| source | as written | input that shows it | evidently intended | confidence | as-written member | corrected member |
|---|---|---|---|---|---|---|
| src/App.tsx:64-70 | `handleSaveShortcut` ignores the boolean answer of `setShortcut`. It shows the input as the current accelerator and closes the panel even when the main process refused it and kept the old one. | a fresh install, then saving `J` in the settings panel | update the displayed accelerator only when `setShortcut` answers true | medium, not executed | Renderer.RefusedShortcutIsShown | Renderer.RefusedShortcutIsNotShown |
