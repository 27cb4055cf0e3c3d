# Slide-out TODO panel: a verified model

This project models the core of a small Electron desktop TODO panel. The
panel lives at the right edge of the screen and is toggled from a tray icon
or a global shortcut. Its data is one JSON document of todos and sections.

| file | module | models |
|---|---|---|
| `documents.dfy` | `Documents` | the JSON-level document shape shared by both processes, and the two default sections |
| `store.dfy` | `MainStore` | the main process's `getTodos` / `saveTodos` handlers, over an abstract read outcome |
| `splice.dfy` | `Splice` | the copy-and-`splice` move used by section reordering and drag-and-drop, including how `splice` resolves indices |
| `todos.dfy` | `TodoHook` | the renderer hook: load normalisation, priority values, the sorted view (a stable in-place sort), and the section edits |
| `animation.dfy` | `Animation` | one `setInterval` tick of the slide animation, and runs of ticks |
| `panel.dfy` | `PanelController` | the panel geometry and the main process's module-level state (window, tray, shortcuts, `activeAnimations`) with every event handler that changes it |
| `app.dfy` | `TodoApp` | the component's list edits (add, toggle, delete, rename, drag-and-drop), its edit and drag state, and JavaScript's `String.prototype.trim` |

Pure code is written as functions with lemmas. State that the source updates
in place is written as classes with methods:
- the main module's variables become `PanelController.Panel`;
- the component's `useState` variables become `TodoApp.Editor`.

The in-place algorithms keep their arrays:
- the sort is an insertion sort on an array;
- the splice move shifts array elements left and then right.

Each is proved equal to a specification function. That function's properties
are proved as lemmas.

The model follows these conventions:
- `Date.now()` and `nanoid()` are parameters (`now`, `newId`). At load time
  the clock is read once per defaulted todo, so it is a `Clock`: the reading
  taken for each todo index.
- The file system is a `ReadResult` value plus an `ioFails` flag.
- Animation positions are exact reals. `Math.round` is `floor(x + 0.5)`.
- A JavaScript `x || d` default is `OrString` or `OrInt`. Only `""`, `0` and
  an absent field count as falsy.

Two behaviours of the code are worth stating plainly:
- Deleting a section does not delete its todos (useTodos.ts:138-147). Every
  todo of that section is moved to `'today'` (`TodoHook.DeleteSection`).
- A legacy bare-array file reaches the renderer already wrapped as an object
  by the main process. The renderer's object branch does not default
  `section`, so those todos keep a missing section rather than getting
  `'today'` (`TodoHook.LegacyFileKeepsMissingSections`). The renderer's own
  legacy branch (useTodos.ts:60-68) is modelled, but the main process never
  sends it an array.

## Model

| member | source | states |
|---|---|---|
| Documents.DefaultRawSections | src/main/main.ts:39-42 | the defaults are exactly `today` named "Today", then `later` named "Later", both expanded |
| MainStore.EmptyDocument | src/main/main.ts:48-57 | no todos and the two default sections |
| MainStore.GetTodos | src/main/main.ts:22-68 | a parsed object is returned verbatim; a legacy array keeps its items and gets the default sections; a missing file or any failure gives no todos and the default sections |
| MainStore.SaveTodos | src/main/main.ts:70-93 | success exactly when no I/O call throws, and then something is written; an object is written as it is; an array is written with an empty section list |
| MainStore.SaveThenLoad | src/main/main.ts:79-88 | loading a saved document gives back that document |
| MainStore.LoadSaveLoadIsStable | src/main/main.ts:46-47 | whatever a load returns, saving it and loading again returns the same document |
| MainStore.LegacyArraySaveLosesDefaultSections | src/main/main.ts:79-83 | loading a legacy array adds the default sections, but saving one stores an empty section list, which the next load keeps |
| Splice.ResolveIndex | src/renderer/hooks/useTodos.ts:151-152 | splice start resolution: in range stays, too large clamps to the length, negative counts from the end, and clamps to 0 |
| Splice.MovedIsPermutation | src/renderer/hooks/useTodos.ts:148-155 | a move keeps the length and the multiset of elements, and puts the moved element at the target index |
| Splice.MovedKeepsOutside | src/renderer/hooks/useTodos.ts:148-155 | elements below both indices or above both keep their index |
| Splice.MoveBackRestores | src/renderer/hooks/useTodos.ts:148-155 | moving back from the target to the source index undoes a move |
| Splice.MoveInPlaceIsIdentity | src/renderer/hooks/useTodos.ts:148-155 | moving an element onto its own index changes nothing |
| Splice.CloseGap | src/renderer/hooks/useTodos.ts:151 | removing one slot shifts the tail left: the first n-1 slots are the array without that element |
| Splice.OpenGap | src/renderer/hooks/useTodos.ts:152 | opening a slot keeps the prefix and shifts everything from it one place right |
| Splice.Move | src/renderer/hooks/useTodos.ts:150-153 | the array shift-and-insert equals the specified move at the splice-resolved indices |
| Splice.GapsMakeMove | src/renderer/hooks/useTodos.ts:150-153 | closing the gap at the source and filling a gap opened at the target with the moved element gives the specified move |
| TodoHook.PriorityValue | src/renderer/hooks/useTodos.ts:39-46 | high is 3, medium 2, low 1; every other string is 0 |
| TodoHook.OrString | src/renderer/hooks/useTodos.ts:64-65 | JavaScript `or` default on strings: the default when absent or empty, else the value |
| TodoHook.OrInt | src/renderer/hooks/useTodos.ts:66 | JavaScript `or` default on numbers: the default when absent or zero, else the value |
| TodoHook.LegacyTodo | src/renderer/hooks/useTodos.ts:62-67 | the spread keeps id, text, done and priority; a falsy section becomes `today`, a falsy description `""`, a falsy createdAt the clock reading |
| TodoHook.ObjectTodo | src/renderer/hooks/useTodos.ts:72-76 | the same, except that the section is kept as it is, including a missing one |
| TodoHook.LoadedSection | src/renderer/hooks/useTodos.ts:81-84 | id and name kept; `expanded` kept when it is a boolean, true otherwise |
| TodoHook.Load | src/renderer/hooks/useTodos.ts:55-97 | rejected, or a payload the handler throws on: no todos and the default sections; legacy array: section, description and createdAt defaulted, other fields kept, default sections; object: missing todos become empty, description and createdAt defaulted (each todo with its own clock reading), section not defaulted; sections kept with `expanded` defaulted to true when not a boolean; missing sections become the defaults |
| TodoHook.LoadFillsCreatedAt | src/renderer/hooks/useTodos.ts:66-75 | when no clock reading is 0, every loaded todo has a nonzero creation time |
| TodoHook.AbsentFieldsLoadLikeCatch | src/renderer/hooks/useTodos.ts:69-92 | a payload with neither `todos` nor `sections` loads to the same state as the `.catch` path: no todos and the default sections |
| TodoHook.StoredTodo | src/renderer/hooks/useTodos.ts:104-105 | the saved todo carries every field unchanged, description and createdAt always present |
| TodoHook.StoredSection | src/renderer/hooks/useTodos.ts:104-105 | the saved section carries id, name and a boolean `expanded` |
| TodoHook.ReloadTodo | src/renderer/hooks/useTodos.ts:72-76 | loading a saved todo gives it back when its creation time is nonzero; a zero creation time is replaced by the clock reading |
| TodoHook.ReloadSection | src/renderer/hooks/useTodos.ts:81-84 | loading a saved section gives it back |
| TodoHook.DefaultSectionsAgree | src/renderer/hooks/useTodos.ts:33-36 | the renderer's default sections are the main process's defaults after load normalisation |
| TodoHook.ReloadIsStable | src/renderer/hooks/useTodos.ts:100-107 | saving the state through the main process and loading it back gives the same state, when every creation time is nonzero |
| TodoHook.LegacyFileKeepsMissingSections | src/renderer/hooks/useTodos.ts:69-76 | a legacy file loaded through the main process gets the default sections, but each todo keeps its own section value, including a missing one |
| TodoHook.CompareMeaning | src/renderer/hooks/useTodos.ts:113-127 | a todo not done sorts before a done one; otherwise, by priority, a higher priority value sorts first and equal values tie; by creation, a later time sorts first and equal times tie; with no key, all tie |
| TodoHook.CompareIsPreorder | src/renderer/hooks/useTodos.ts:113-127 | the comparator is antisymmetric in sign and transitive for "not after" and for "equal" |
| TodoHook.InsertMultiset | src/renderer/hooks/useTodos.ts:113 | inserting adds exactly the inserted element |
| TodoHook.InsertElement | src/renderer/hooks/useTodos.ts:113 | every element of an insert is the inserted one or came from the list |
| TodoHook.InsertSorted | src/renderer/hooks/useTodos.ts:113-127 | inserting into a sorted list keeps it sorted |
| TodoHook.SortedSnoc | src/renderer/hooks/useTodos.ts:113-127 | appending an element not before any of a sorted list keeps it sorted |
| TodoHook.NotBothPeers | src/renderer/hooks/useTodos.ts:113-127 | an element strictly after the inserted one cannot be its peer, so peer sets are separated |
| TodoHook.InsertPeers | src/renderer/hooks/useTodos.ts:113-127 | inserting appends the element to its own peer group and changes no other group (stability) |
| TodoHook.PeersSnoc | src/renderer/hooks/useTodos.ts:113-127 | appending an element extends only its own peer group |
| TodoHook.InsertPeersPastGreater | src/renderer/hooks/useTodos.ts:113-127 | inserting past a greater last element preserves the peer-group property |
| TodoHook.SortByIsStableSort | src/renderer/hooks/useTodos.ts:113-127 | the reference sort is sorted, a permutation, and stable |
| TodoHook.SortedMeaning | src/renderer/hooks/useTodos.ts:114-124 | in a sorted list, done todos come after not-done ones; within one group priority or createdAt does not increase |
| TodoHook.InsertAt | src/renderer/hooks/useTodos.ts:113 | inserting goes right after the last element not greater than the new one |
| TodoHook.InsertInPlace | src/renderer/hooks/useTodos.ts:113 | the in-place insertion step of the array sort is the specified insert, and the rest of the array is unchanged |
| TodoHook.ShiftedIsInsert | src/renderer/hooks/useTodos.ts:113 | the array after shifting the greater elements right and placing the new one is the specified insert |
| TodoHook.SortedTodos | src/renderer/hooks/useTodos.ts:110-128 | no sort returns the list itself; otherwise sorted, a permutation, and stable |
| TodoHook.SortByPrefixStep | src/renderer/hooks/useTodos.ts:113 | sorting one more element of a prefix is one more insertion |
| TodoHook.TailStep | src/renderer/hooks/useTodos.ts:113 | sequences that agree from one index on agree at it and past it |
| TodoHook.AddSection | src/renderer/hooks/useTodos.ts:132-134 | appends exactly one expanded section with the new id; existing sections are unchanged |
| TodoHook.RenameSection | src/renderer/hooks/useTodos.ts:135-137 | only the name changes, and only on the matching ids |
| TodoHook.RenameTwice | src/renderer/hooks/useTodos.ts:135-137 | the last rename wins |
| TodoHook.WithoutSection | src/renderer/hooks/useTodos.ts:139 | a section is kept exactly when it was there and has another id |
| TodoHook.WithoutSectionAppend | src/renderer/hooks/useTodos.ts:139 | the filter keeps the relative order |
| TodoHook.ReassignTodos | src/renderer/hooks/useTodos.ts:140-146 | todos of the deleted section move to `today`, all others are unchanged |
| TodoHook.DeleteSection | src/renderer/hooks/useTodos.ts:138-147 | exactly the sections with that id are removed; the todo count and every other field are unchanged; a section equal to the id becomes `today` |
| TodoHook.DeleteSectionOrphans | src/renderer/hooks/useTodos.ts:138-147 | deleting any section but `today` leaves no todo in it; deleting `today` leaves its todos pointing at a section that no longer exists |
| TodoHook.AddThenDeleteSection | src/renderer/hooks/useTodos.ts:132-139 | deleting a section just added under a fresh id undoes the add |
| TodoHook.WithoutSectionNone | src/renderer/hooks/useTodos.ts:139 | deleting an id no section carries changes nothing |
| TodoHook.ReorderSections | src/renderer/hooks/useTodos.ts:148-155 | the result is the specified move, so it is a same-length permutation with the moved section at the target index |
| Animation.Round | src/main/main.ts:126 | rounds half up: the result is the integer within half a unit below |
| Animation.RoundMonotone | src/main/main.ts:126 | rounding is monotone |
| Animation.RoundOfInteger | src/main/main.ts:126 | an integer rounds to itself |
| Animation.StepSize | src/main/main.ts:110 | twenty steps cover exactly the distance; the step is positive moving right and negative moving left |
| Animation.Reached | src/main/main.ts:128 | the test holds exactly when the position is at or past `toX` in the direction of travel, and never for a zero step |
| Animation.Tick | src/main/main.ts:114-147 | aborts exactly when the window is gone, then writes nothing and marks the closure destroyed; otherwise the position advances by one step; a throwing step write writes nothing and errors; the tick keeps running exactly when the window is usable, the step write succeeds and the test does not fire, and then it writes the rounded position; a finish notifies exactly when the closure was not destroyed; a notified finish writes the rounded position, then exactly `toX` |
| Animation.OnCompleteAtMostOnce | src/main/main.ts:128-138 | over any run, `onComplete` runs at most once, only together with the interval being cleared, and no more ticks are counted than firings |
| Animation.ClearedIgnoresLaterFirings | src/main/main.ts:114-147 | once a run has cleared its interval, further firings change nothing about the run |
| Animation.PosStep | src/main/main.ts:124 | each tick adds one step to the position |
| Animation.ReachedExactlyAtLastStep | src/main/main.ts:128 | for distinct endpoints the termination test holds exactly from tick 20, where the position is exactly `toX` |
| Animation.PathWritesPrefix | src/main/main.ts:126 | the j-th write of an undisturbed run is the rounded position after j+1 steps |
| Animation.LiveTick | src/main/main.ts:124-139 | an undisturbed tick before step 20 advances one step and writes the rounded position; the tick reaching step 20 writes it, then `toX`, and notifies |
| Animation.PathWritesSlice | src/main/main.ts:126 | the writes from tick k on start with the rounded position after k+1 steps |
| Animation.LiveRunShort | src/main/main.ts:114-147 | an undisturbed run from step k that stops short of step 20 is still running, has written the path so far and has not completed |
| Animation.LiveRunLong | src/main/main.ts:114-147 | an undisturbed run from step k that reaches step 20 stops there, after the remaining ticks, having written the rest of the path and then `toX`, and completes once |
| Animation.CompletesAfterTwentyTicks | src/main/main.ts:124-139 | with distinct endpoints and no disturbance, the animation stops after exactly 20 ticks at exactly `toX` and runs `onComplete` once |
| Animation.PathIsMonotone | src/main/main.ts:124-126 | written positions move monotonically toward `toX` and never pass it |
| Animation.PosDifference | src/main/main.ts:124 | after j-i more ticks the position has moved by j-i steps |
| Animation.OrderedPositions | src/main/main.ts:124 | positions separated by non-negative multiples of the step are ordered in the step's direction |
| Animation.ScaleSign | src/main/main.ts:124 | a non-negative number of steps moves in the step's direction |
| Animation.EqualEndpointsNeverFinish | src/main/main.ts:128 | with equal endpoints the termination test never fires: no completion, no clear, every write is the start position |
| Animation.InterruptedRunNeverCompletes | src/main/main.ts:116-122 | if the window is gone or a step write throws before tick 20, the interval is cleared, nothing more is written, and `onComplete` never runs |
| Animation.InterruptedFrom | src/main/main.ts:116-122 | the same, from any intermediate tick |
| PanelController.GeometryFor | src/main/main.ts:154-158 | the shown panel sits 10 px from the right edge; the hidden one is 10 px past it, 300 px further right; the top is at 10 |
| PanelController.PanelStepIsFifteen | src/main/main.ts:109-110 | between the panel's two positions the step is +15 or -15, and every position written is an exact integer |
| PanelController.Without | src/main/main.ts:120 | filtering never lengthens the list |
| PanelController.WithoutMembership | src/main/main.ts:120 | an id survives exactly when it was listed and is not the removed one |
| PanelController.WithoutConcat | src/main/main.ts:131 | the filter keeps the order of the others |
| PanelController.WithoutAbsent | src/main/main.ts:131 | filtering an unlisted id changes nothing |
| PanelController.WithoutRemovesOne | src/main/main.ts:144 | in a duplicate-free list, the filter removes exactly the one entry with that id |
| PanelController.UniqueAt | src/main/main.ts:144 | in a duplicate-free list, the id at one index occurs nowhere else |
| PanelController.WithoutSplit | src/main/main.ts:131 | removing an id that occurs once, between two lists without it, leaves the two lists |
| PanelController.WithoutSingle | src/main/main.ts:131 | removing the only id leaves nothing |
| PanelController.DropKeepsDistinct | src/main/main.ts:144 | removing one entry keeps the list duplicate-free |
| PanelController.AfterWrites | src/main/main.ts:126 | the window ends at the last position written, if any and if it is alive |
| PanelController.AfterCallback | src/main/main.ts:95-103 | hiding hides a live window in place; destroying leaves any window reference destroyed; neither touches a missing window, and no callback changes nothing |
| PanelController.ListedCoversRunning | src/main/main.ts:475-476 | while every scheduled interval is listed, cancelling the listed ones leaves none scheduled |
| PanelController.TrackedAfterStart | src/main/main.ts:114-150 | scheduling under the next id and pushing it keeps `activeAnimations` duplicate-free and equal to the live intervals |
| PanelController.TrackedAfterStep | src/main/main.ts:124-126 | a tick that keeps running keeps the bookkeeping consistent |
| PanelController.TrackedAfterClear | src/main/main.ts:116-146 | clearing an interval and filtering its id out keeps the bookkeeping consistent |
| PanelController.Panel.constructor | src/main/main.ts:5-16 | at load there is no window, no tray, no shortcuts and no animation |
| PanelController.Panel.CreateWindow | src/main/main.ts:154-177 | sets the geometry for the screen width and creates a hidden window at the hidden position |
| PanelController.Panel.Startup | src/main/main.ts:433-456 | creates the window, the tray and the shortcuts |
| PanelController.Panel.AnimateWindow | src/main/main.ts:106-151 | without a window nothing happens; otherwise a new interval is scheduled under a fresh id, and that id is appended to `activeAnimations` |
| PanelController.Panel.Tick | src/main/main.ts:114-147 | a running interval keeps its place; a finish, abort or error clears it and removes only its id; the window takes the last written position; a notified finish runs the callback; the list stays duplicate-free and matches the scheduled intervals |
| PanelController.Panel.Closed | src/main/main.ts:252-254 | releases the destroyed window reference |
| PanelController.Panel.ReadyToShow | src/main/main.ts:231-236 | a live window is shown and slides in |
| PanelController.Panel.Toggle | src/main/main.ts:415-429 | visible: slide out, then hide; hidden: show, then slide in; no live window: nothing |
| PanelController.Panel.TrayClick | src/main/main.ts:415-429 | as `Toggle`: a visible live window slides out with the hide callback; a hidden live one is shown and slides in with no callback; a missing or destroyed one is left alone; one id is used per slide; geometry, tray, shortcuts and exit are unchanged |
| PanelController.Panel.ToggleShortcut | src/main/main.ts:438-446 | the same contract as `TrayClick`, from the global shortcut |
| PanelController.Panel.CloseRequested | src/main/main.ts:239-249 | the close is cancelled and becomes a slide out then hide; the window is never destroyed here |
| PanelController.Panel.SlideOutRequest | src/main/main.ts:95-103 | with a window reference, slides out, then hides or destroys the window |
| PanelController.Panel.ShowMenuItem | src/main/main.ts:331-339 | acts only on a live hidden window: show, then slide in |
| PanelController.Panel.HideMenuItem | src/main/main.ts:343-350 | acts only on a live visible window: slide out, then hide |
| PanelController.Panel.ClearAnimations | src/main/main.ts:475-476 | exactly the intervals listed in `activeAnimations` are cancelled, then the list is emptied; nothing else changes |
| PanelController.Panel.Teardown | src/main/main.ts:471-500 | the window is released, the listed intervals are cleared and the list emptied, which leaves no interval scheduled; shortcuts and tray are gone |
| PanelController.Panel.QuitMenuItem | src/main/main.ts:362-402 | full teardown, then exit |
| PanelController.Panel.WillQuit | src/main/main.ts:471-500 | full teardown; the quit proceeds |
| PanelController.Panel.ForceQuit | src/main/main.ts:509-512 | exits at once with no cleanup |
| PanelController.Panel.Activate | src/main/main.ts:466-468 | creates a window only if none is open; tray, shortcuts, intervals and the next id are untouched |
| PanelController.Panel.WindowAllClosed | src/main/main.ts:459-463 | off macOS, tears down (no window, no interval, no tray, no shortcuts) and quits; on macOS nothing changes |
| TodoApp.TrimStart | src/renderer/App.tsx:63 | never longer than the input |
| TodoApp.TrimStartMeaning | src/renderer/App.tsx:63 | the result is a suffix of the input, the dropped prefix is white space, and the result does not start with white space |
| TodoApp.TrimEnd | src/renderer/App.tsx:63 | never longer than the input |
| TodoApp.TrimEndMeaning | src/renderer/App.tsx:63 | the result is a prefix of the input, the dropped suffix is white space, and the result does not end with white space |
| TodoApp.Trim | src/renderer/App.tsx:63 | empty exactly when the input is all white space; otherwise it starts and ends with a non-space |
| TodoApp.TrimBothEnds | src/renderer/App.tsx:63 | trimming both ends gives an empty string exactly for all-white-space input |
| TodoApp.TrimIdempotent | src/renderer/App.tsx:89 | trimming twice is trimming once |
| TodoApp.TrimIsInnerSlice | src/renderer/App.tsx:89 | the trimmed text is a contiguous slice of the input with only white space around it |
| TodoApp.SliceOfSuffix | src/renderer/App.tsx:89 | slicing a suffix is slicing the input at shifted offsets |
| TodoApp.Deleted | src/renderer/App.tsx:77-78 | no remaining todo has the deleted id, and the list does not grow |
| TodoApp.Toggled | src/renderer/App.tsx:73-74 | the length is kept; only `done` changes, and it flips exactly on the todos with that id |
| TodoApp.ToggleTwiceRestores | src/renderer/App.tsx:73-74 | toggling twice restores the list |
| TodoApp.ToggleAbsentIsIdentity | src/renderer/App.tsx:73-74 | toggling an id no todo carries changes nothing |
| TodoApp.TogglesCommute | src/renderer/App.tsx:73-74 | toggles of two ids commute |
| TodoApp.DeletedMembership | src/renderer/App.tsx:77-78 | a todo remains exactly when it was there and has another id |
| TodoApp.DeletedConcat | src/renderer/App.tsx:77-78 | the remaining todos keep their relative order |
| TodoApp.DeleteAbsentIsIdentity | src/renderer/App.tsx:77-78 | deleting an id no todo carries changes nothing |
| TodoApp.DeleteIdempotent | src/renderer/App.tsx:77-78 | deleting twice is deleting once |
| TodoApp.AddThenDeleteRestores | src/renderer/App.tsx:65-78 | deleting a todo just added under a fresh id restores the list |
| TodoApp.DeleteAfterToggle | src/renderer/App.tsx:73-78 | toggling and then deleting an id is deleting it |
| TodoApp.Renamed | src/renderer/App.tsx:91 | the length is kept; only `text` changes, and only on the todos with that id |
| TodoApp.RenameTwice | src/renderer/App.tsx:91 | the last rename wins |
| TodoApp.RenameCommutesWithToggle | src/renderer/App.tsx:91 | renaming and toggling commute |
| TodoApp.Editor.constructor | src/renderer/App.tsx:51-59 | the initial input, priority, drag and edit state, over the hook's list |
| TodoApp.Editor.AddTask | src/renderer/App.tsx:62-70 | blank input changes nothing; otherwise one todo `{now, trimmed text, not done, chosen priority}` is appended and the input is cleared |
| TodoApp.Editor.ToggleDone | src/renderer/App.tsx:73-74 | the list becomes the toggled list; nothing else changes |
| TodoApp.Editor.DeleteTask | src/renderer/App.tsx:77-78 | the list becomes the filtered list; nothing else changes |
| TodoApp.Editor.StartEdit | src/renderer/App.tsx:81-84 | the edited id and the edit text come from the todo |
| TodoApp.Editor.FinishEdit | src/renderer/App.tsx:87-95 | nothing without an edit in progress; otherwise a non-blank trimmed text renames the matching todos, a blank one keeps the list, and the edit state is cleared either way |
| TodoApp.Editor.DragStart | src/renderer/App.tsx:98-101 | remembers the dragged index |
| TodoApp.Editor.HandleDrop | src/renderer/App.tsx:106-116 | no drag, or a drop on its own index: nothing changes and the drag is kept; otherwise the dragged todo moves to the drop index, giving a same-length permutation, and the drag is reset |

## Left out

- File-system calls, path resolution and JSON text: the read outcome is a value and the write failure is a flag.
- Electron windows, tray, menus, shortcuts and `process.exit` are reduced to the fields of `PanelController.Panel`. The window is only absent, alive (visible, x, y) or destroyed.
- The tray-icon fallback chain (main.ts:273-325) and the renderer-loading retries over alternative paths (main.ts:180-228): platform and file-system plumbing with no effect on the modelled state.
- The "View on GitHub" menu item and the empty 'before-quit' handler: no state change.
- Timers: the 10 ms pacing and the interleaving of intervals are not modelled. Each `Panel.Tick` call is one firing of one scheduled interval, in any order the caller chooses.
- Floating point: the slide uses exact reals. For the panel's own endpoints every position is an integer (`PanelController.PanelStepIsFifteen`), so no rounding is involved. For other endpoints, IEEE accumulation error in `currentX += stepSize` is not modelled.
- `Date.now()` and `nanoid()` are parameters. Id uniqueness is a precondition where a lemma needs it.
- React rendering, the save-on-change effect's scheduling, MUI and framer-motion markup, the theme toggle, and the preload bridge.
- The compiled `dist/` output, and the icon-generation scripts.
- PanelController.Panel.CloseRequested: the hide callback is modelled on the current window. The source's closure hides the window that raised the event. The two differ only if that window is destroyed and a new one is created before the slide ends.
- PanelController.Panel.Closed: requires a destroyed window. Electron raises 'closed' only after a destroy; the quit paths remove the listener before destroying.
- TodoApp.Editor.HandleDrop: requires the dragged index to name a todo. Splicing out of range removes nothing and would insert `undefined`.
- Splice.Move and TodoHook.ReorderSections: require `from` to name an element, for the same reason.
- TodoApp: the component destructures the hook's result object as if it were an array (App.tsx:45-48). Its updaters are modelled over a plain todo list, on the component's own four-field todo type.
- TodoHook.Load: the payloads that make the handler throw (a null payload, a truthy `todos` that is not an array, a null entry) are one `Malformed` response and are not told apart. A primitive payload such as a number or a string does not throw: it takes the object branch with no todos and the default sections, which is `Object` of an all-absent document. A primitive entry (such as `5` in `todos`) does not throw either: it yields a todo with only `description` and `createdAt`, which `RawTodo` does not represent.
- MainStore.GetTodos: a file whose JSON is neither an array nor an object (null, a number, a string) is passed through verbatim by the source, and `ReadResult` does not hold it. For `null` the renderer's handler throws and takes its `.catch` path (`TodoHook.Load` on `Malformed`). For a number or a string it takes the object branch with no todos and the default sections (`TodoHook.Load` on an all-absent `Object`).
- PanelController.Panel.ToggleShortcut: the shortcut handler checks only for a null window (main.ts:439). On a destroyed window its `isVisible()` throws. That throw leaves the state as the model's "nothing changes". Its hide callback (`mainWindow?.hide()`) has no destroyed check either. It runs only on the tick that finishes, whose window is live.
- TodoApp.Trim: the white-space set is the ECMAScript one. No other Unicode processing is involved.
