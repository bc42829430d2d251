# ZenFocus dashboard core, modelled in Dafny

This project models three modules of the ZenFocus browser dashboard:

- **Task list** (`TaskManager`, module `Tasks`). It is an insertion-ordered list of tasks (`id`, `text`, `completed`) kept in the `zenFocusTasks` storage slot. After every change it saves the whole list and brings the `<ul>` up to date with a keyed, minimal-change reconciliation (`render`).
  - The list element is a `TaskList` object whose `children` is a sequence of `TaskNode` references.
  - Each item carries its `data-id`, its `completed` class, the span text, `aria-checked` and the delete button's `aria-label`.
  - A ghost log on each item records which attributes `updateTaskElement` wrote.
- **Pomodoro timer** (`PomodoroTimer`, module `Timer`). It is a work/break countdown state machine over `timeLeft`, `isRunning`, `isWorkSession` and `timerId`, together with the work/break inputs, the auto-start checkbox and the saved settings.
  - The browser's timer table is explicit state. `intervals` holds the live `setInterval` handles. `Tick(handle)` is one firing of a live ticker.
  - The `setTimeout` follow-up of `completeSession` is queued in `pending` and runs in `RunFollowUp()`.
- **Background picker** (`BackgroundManager`, module `Background`). It buckets the hour into morning, afternoon or evening and builds the Unsplash request URL. It falls back to one of three built-in photos when there is no key or the request fails, and writes the body background and the author credit.

Two support modules state the JavaScript built-ins the core relies on:

- `JsStrings`: `trim`, `String(n)`, `parseInt`, `padStart` and `includes`, on `seq<char>`.
- `Wrappers`: `Option` and `Result`.

## Model

| member | source | states |
|---|---|---|
| Tasks.WithoutId | js/modules/tasks.js:63-66 | the filtered list holds exactly the tasks of the old list whose id differs, and is no longer than it |
| Tasks.WithoutIdKeepsOrder | js/modules/tasks.js:64 | the surviving tasks keep their relative order: there is an increasing embedding of the result into the old list |
| Tasks.WithoutIdRemoves | js/modules/tasks.js:64 | after deleting an id no task has it; with unique ids, exactly one task fewer remains when the id was present |
| Tasks.WithoutAbsentId | js/modules/tasks.js:63-66 | deleting an id no task has leaves the list identical (same length, same contents) |
| Tasks.WithoutIdUnique | js/modules/tasks.js:64 | deleting keeps task ids unique |
| Tasks.FirstIndex | js/modules/tasks.js:69 | `find` stops at the first task with the id; there is none exactly when no task has that id |
| Tasks.Toggled | js/modules/tasks.js:68-74 | toggling keeps every task's id and text at its position, so order and ids survive (its partners below state the flip itself) |
| Tasks.ToggledEffect | js/modules/tasks.js:68-74 | toggling flips `completed` on the task with that id only; ids, texts and order are kept |
| Tasks.ToggledTwice | js/modules/tasks.js:68-74 | toggling the same id twice restores the original list |
| Tasks.ToggledAbsent | js/modules/tasks.js:69-70 | toggling an absent id changes nothing |
| Tasks.Load | js/modules/tasks.js:3 | reading the slot fails exactly on unparsable text; a missing slot loads as the empty list (`JSON.parse(null)` is null, so `|| []` applies) |
| Tasks.Serialize | js/modules/tasks.js:45 | what `saveTasks` stores loads back as exactly the saved list |
| Tasks.KeyInjective | js/modules/tasks.js:92 | different task ids give different `data-id` keys, so the id table never confuses two tasks |
| Tasks.NeededWritesMinimal | js/modules/tasks.js:141-160 | `updateTaskElement` writes nothing exactly when the item already shows the task; it writes the delete label exactly when the text changed; at most four writes |
| Tasks.Without | js/modules/tasks.js:114 | detaching a node never lengthens the children, and detaching one that is not a child changes nothing (WithoutKeeps, WithoutAt and WithoutAfterPrefix state the rest) |
| Tasks.InsertedBefore | js/modules/tasks.js:105 | `insertBefore` leaves the node among the children, at most one longer than before (InsertedBeforeAt gives the exact order) |
| Tasks.InsertedBeforeAt | js/modules/tasks.js:105 | `insertBefore(x, children[i])` keeps the first i children, puts x at i and the rest follows without x |
| Tasks.StepMove | js/modules/tasks.js:102-106 | moving a retained item from further right to position i keeps the placed prefix, keeps the children distinct and a permutation, and leaves the table of the unplaced ones |
| Tasks.PlaceStep | js/modules/tasks.js:91-109 | one step of the `forEach`: the item for task i ends at position i (already there, moved, inserted, or appended via the fragment) and the placement invariant holds for i + 1 |
| Tasks.RenderOutcome | js/modules/tasks.js:91-114 | after the loop, the placed items are distinct with distinct keys; every old item whose id is still a task's sits at that task's position; every other placed item was created in the loop, for an id no old item had |
| Tasks.TaskList.IdTable | js/modules/tasks.js:82-87 | the Map built from the children files every child with a data-id under that id, and holds nothing else |
| Tasks.TaskList.RemoveAll | js/modules/tasks.js:114 | removing the leftover table entries leaves exactly the placed prefix of the children |
| Tasks.TaskList.PlaceAt | js/modules/tasks.js:102-109 | with a child at the index, the node is inserted before it unless it is that child; without one, it is detached and added to the fragment |
| Tasks.TaskManager.Sweep | js/modules/tasks.js:112-114 | appending the fragment and then removing what is left in the table leaves exactly the placed items, in order |
| Tasks.TaskList.AppendFragment | js/modules/tasks.js:112 | the fragment's nodes move to the end of the children, in order |
| Tasks.TaskList.InsertBefore | js/modules/tasks.js:105 | the children after `insertBefore`, as a function of the old children |
| Tasks.TaskList.Detach | js/modules/tasks.js:114 | `remove()` takes exactly that node out of the children |
| Tasks.TaskList.Clear | js/modules/tasks.js:77-80 | `innerHTML = ''` leaves no children |
| Tasks.TaskManager.constructor | js/modules/tasks.js:2-10 | the stored tasks are loaded and rendered; the manager is valid (unique ids, list in sync, slot holds the tasks) |
| Tasks.TaskManager.SaveTasks | js/modules/tasks.js:44-47 | the slot holds the serialisation of the current tasks and the list is in sync with them; an old item whose id is still a task's is reused at its position, every other item is fresh |
| Tasks.TaskManager.AddTask | js/modules/tasks.js:49-61 | blank (after trim) input changes nothing; otherwise exactly one task `(id, trimmed text, false)` is appended, earlier tasks are untouched, the input is cleared, the slot is saved; old items are reused, only the new task's item is fresh |
| Tasks.TaskManager.DeleteTask | js/modules/tasks.js:63-66 | the new tasks are the filtered list, the slot holds their serialisation, the view is in sync and reuses the surviving items |
| Tasks.TaskManager.ToggleTask | js/modules/tasks.js:68-74 | the new tasks are the toggled list; with the id present every item is reused in place; an absent id leaves the slot and the list children untouched |
| Tasks.TaskManager.CreateTaskElement | js/modules/tasks.js:117-139 | a fresh item that shows the task: key, class, aria-checked, text, delete label |
| Tasks.TaskManager.UpdateTaskElement | js/modules/tasks.js:141-160 | the item shows the task afterwards; the writes made are exactly the needed ones; the delete label changes only with the text |
| Tasks.TaskManager.TakeItem | js/modules/tasks.js:93-100 | the retained item for the task's id is reused (patched and dropped from the table), otherwise a fresh one is created |
| Tasks.TaskManager.PutItem | js/modules/tasks.js:102-109 | placing the item keeps the placement invariant and records every created item |
| Tasks.TaskManager.PlaceTask | js/modules/tasks.js:91-110 | one callback of the `forEach` keeps the placement invariant: the first i + 1 positions show tasks 0..i |
| Tasks.TaskManager.PlaceAll | js/modules/tasks.js:91-110 | after the loop the list followed by the fragment starts with one item per task in order; created items are fresh |
| Tasks.TaskManager.Render | js/modules/tasks.js:76-115 | the children show exactly the tasks in order (empty list: no children); an old item whose id is still present is reused at its task's position; every other item is fresh and for an id no old item had |
| JsStrings.Trim | js/modules/tasks.js:50 | `trim()` is no longer than its input and neither starts nor ends with white space |
| JsStrings.TrimEmptyIff | js/modules/tasks.js:50-51 | `trim()` is empty exactly on all-whitespace input, so exactly blank input is rejected |
| JsStrings.TrimIdempotent | js/modules/tasks.js:50 | trimming the stored text again changes nothing |
| JsStrings.IntString | js/modules/timer.js:111 | `String(n)` is never empty and starts with '-' exactly for negative n; IntStringInjective: different numbers give different texts |
| JsStrings.ParseInt | js/modules/timer.js:110 | `parseInt('')` is NaN; with ParseIntDigits and ParseIntMinus it reads a run of decimal digits, and a minus sign before them, as their value |
| JsStrings.ParseMagnitude | js/modules/timer.js:110 | the digits after the sign of an empty string are NaN |
| JsStrings.MagnitudeDigits | js/modules/timer.js:110 | a run of decimal digits is read whole in base 10 (a second character that is a digit is never the 'x' of a hex prefix) |
| JsStrings.ParseIntDigits | js/modules/timer.js:110 | `parseInt` on a run of decimal digits is their value |
| JsStrings.ParseIntMinus | js/modules/timer.js:110 | `parseInt` on '-' followed by a magnitude is its negation |
| JsStrings.ParseIntString | js/modules/timer.js:109-113 | `parseInt(String(n)) == n`, so the value written back into an input reads back unchanged |
| JsStrings.PadStart | js/modules/timer.js:203 | `padStart` reaches the width and never shortens its input |
| JsStrings.PadStartShape | js/modules/timer.js:203 | `padStart(2, '0')` reaches the width, ends with the original and fills the front with '0' |
| Timer.ValidTime | js/modules/timer.js:109-113 | `Math.max(1, parseInt(v) \|\| 1)`: at least 1; the parsed number when positive; 1 for NaN, zero or negatives |
| Timer.ValidTimeWriteBack | js/modules/timer.js:109-113 | normalising the written-back value again gives the same minutes |
| Timer.JsRem60 | js/modules/timer.js:202 | JavaScript's `%` agrees with the Euclidean remainder on non-negative times and is in (-60, 0] on negative ones |
| Timer.Format | js/modules/timer.js:200-203 | the `mm:ss` text of the time; no contract of its own, its properties are FormatDecodes, FormatInjective and FormatExamples |
| Timer.DecodeJoin | js/modules/timer.js:200-203 | joining minutes of at least two characters and two-digit seconds with ':' decodes to minutes times 60 plus seconds |
| Timer.FormatDecodes | js/modules/timer.js:200-203 | the `mm:ss` text of a non-negative time decodes back to that time (minutes before the last ':', two-digit seconds after it) |
| Timer.FormatInjective | js/modules/timer.js:200-203 | different remaining times show different texts |
| Timer.FormatExamples | js/modules/timer.js:200-203 | 1500 shows "25:00", 1499 shows "24:59", 300 shows "05:00" |
| Timer.Stored | js/modules/timer.js:55-62 | `saveSettings` always writes an entry holding all three members, and auto-start false without a checkbox |
| Timer.Restored | js/modules/timer.js:34-53 | a missing or unreadable settings entry leaves the inputs at their page values; without a checkbox its state is never touched |
| Timer.RestoreStored | js/modules/timer.js:34-62 | loading what `saveSettings` stored restores the inputs (the checkbox only when it exists) |
| Timer.Loaded | js/modules/timer.js:34-53 | after `loadSettings` the break input and the checkbox are the restored ones; without an entry nothing changes |
| Timer.LoadedSeconds | js/modules/timer.js:34-53 | after `loadSettings` with an entry the time is a positive whole number of minutes; without one it is unchanged |
| Timer.LoadedAgree | js/modules/timer.js:48 | after an entry is loaded, the work input shows the time's minutes and re-reading it gives the same time |
| Timer.SessionEndNotice | js/modules/timer.js:176-186 | a new work session gets the "info" notice, a new break the "success" one |
| Timer.PomodoroTimer.constructor | js/modules/timer.js:9-32 | stopped work session; the inputs and the time are what `loadSettings` makes of the saved entry, starting from 25 minutes; page in sync |
| Timer.PomodoroTimer.LoadSettings | js/modules/timer.js:34-53 | the inputs become Loaded and the time LoadedSeconds of the entry: present saved members overwrite the inputs and the time is re-read from the work input; otherwise nothing changes |
| Timer.PomodoroTimer.SaveSettings | js/modules/timer.js:55-62 | the slot holds the current inputs (auto-start false without a checkbox) |
| Timer.PomodoroTimer.GetValidTime | js/modules/timer.js:109-113 | returns the input's validated minutes and writes them back into that input only |
| Timer.PomodoroTimer.ResetDefaults | js/modules/timer.js:64-75 | inputs become 25 / 5 / unchecked; the time becomes 1500 only when idle in a work session; settings are saved either way; the start and pause buttons are untouched |
| Timer.PomodoroTimer.ChangeWorkInput | js/modules/timer.js:82-88 | the time follows the validated work input only when stopped in a work session; settings are saved either way; the start and pause buttons are untouched |
| Timer.PomodoroTimer.ChangeBreakInput | js/modules/timer.js:90-96 | the time follows the validated break input only when stopped in a break; settings are saved either way; the start and pause buttons are untouched |
| Timer.PomodoroTimer.ChangeAutoStart | js/modules/timer.js:98-102 | the checkbox state is saved |
| Timer.PomodoroTimer.Start | js/modules/timer.js:137-150 | when stopped, exactly one new ticker becomes `timerId` and the controls switch; when running, nothing changes (no second ticker) |
| Timer.PomodoroTimer.Pause | js/modules/timer.js:152-158 | afterwards stopped with no live ticker; when it was running, start is enabled and pause disabled; otherwise nothing changes |
| Timer.PomodoroTimer.Reset | js/modules/timer.js:160-166 | stopped, in a work session, with the validated work minutes times 60 written back into the work input; start enabled and pause disabled when it was running, the buttons untouched otherwise |
| Timer.PomodoroTimer.Tick | js/modules/timer.js:141-147 | only a live ticker fires; it takes exactly one second off; at zero the session completes: stopped with start enabled and pause disabled, the other session's validated minutes written back into its input, the notice queued |
| Timer.PomodoroTimer.CompleteSession | js/modules/timer.js:168-198 | stops, flips the session, sets the new session's validated minutes times 60 (written back into its input) and queues the matching notice; start enabled and pause disabled when it was running, the buttons untouched otherwise |
| Timer.PomodoroTimer.RunFollowUp | js/modules/timer.js:190-197 | the queued notice reaches the notifier if there is one; with auto-start on it has `start`'s full effect (a new ticker and switched controls when stopped, nothing when running); without it the ticker, the handles and the page are unchanged |
| Timer.PomodoroTimer.UpdateDisplay | js/modules/timer.js:200-207 | the display shows the formatted time and the title follows it |
| Timer.PomodoroTimer.UpdateSessionIndicator | js/modules/timer.js:209-216 | break-mode class and label follow the session where the elements exist |
| Timer.PomodoroTimer.ToggleControls | js/modules/timer.js:218-221 | start is disabled exactly while running, pause exactly while stopped |
| Background.TimeOfDayOf | js/modules/background.js:49-54 | morning exactly before 12, afternoon exactly for 12..17, evening exactly from 18 |
| Background.TimeOfDayMonotone | js/modules/background.js:49-54 | a later hour never falls in an earlier bucket |
| Background.TimeOfDayCovers | js/modules/background.js:49-54 | the bucket edges: 0 and 11 are morning, 12 and 17 afternoon, 18 and 23 evening; 9, 14 and 19 fall in the three buckets |
| Background.FallbackIndex | js/modules/background.js:37-43 | morning 0, afternoon 1, evening 2: always a valid index into the three built-in photos |
| Background.FallbackDistinct | js/modules/background.js:4-20 | different buckets get different built-in photos |
| Background.RequestUrl | js/modules/background.js:57 | the request URL starts with the Unsplash random-photo endpoint and ends with the key |
| Background.RequestUrlCarries | js/modules/background.js:57 | the request URL includes `query=nature,<bucket>` and `client_id=<key>` |
| Background.RequestUrlInjective | js/modules/background.js:57 | the request URL determines both the bucket and the key |
| Background.FetchResult | js/modules/background.js:56-65 | a photo results exactly when the response is ok and its body carries one |
| Background.Chosen | js/modules/background.js:26-46 | the applied photo is a built-in one, or the fetched one when there is a key and the request answered |
| Background.ChosenFallback | js/modules/background.js:26-46 | the bucket's built-in photo is used when there is no key or the request failed; the fetched one otherwise |
| Background.ChosenWithoutKey | js/modules/background.js:35-44 | without a key, two hours show the same photo exactly when they share a bucket |
| Background.BackgroundCss | js/modules/background.js:68 | the CSS value `url('…')` is seven characters longer than the image URL and embeds it unchanged |
| Background.BackgroundManager.constructor | js/modules/background.js:2-21 | the key is the stored one or '' and the fallbacks are the three built-in photos |
| Background.BackgroundManager.GetTimeOfDay | js/modules/background.js:49-54 | returns the bucket name "morning", "afternoon" or "evening" for the hour |
| Background.BackgroundManager.FetchUnsplashImage | js/modules/background.js:56-65 | exactly one request, to the URL for the bucket and the key; the result is the outcome's photo or its error |
| Background.BackgroundManager.SetBackground | js/modules/background.js:23-47 | with an empty key no request is made; the applied photo is the chosen one for the hour and the outcome |
| Background.BackgroundManager.ApplyBackground | js/modules/background.js:67-78 | the body background is always set to the image URL; the author text only when both credit elements exist |

## Left out

- js/modules/tasks.js has no edit mode, no `editText` and no recovery from a corrupt `zenFocusTasks` slot: the constructor's `JSON.parse` throws on malformed text. The model has none of these either.
- Tasks.TaskManager.constructor: requires a parsable `zenFocusTasks` slot with unique ids. The code throws on malformed JSON, and duplicate stored ids would void `render`'s guarantees. Neither case is modelled.
- Tasks.TaskManager.AddTask: the id is a parameter with a freshness precondition instead of `Date.now()`. The wall clock is outside the model, and two adds in the same millisecond would collide in the code.
- JSON and `localStorage` are an abstract slot holding the serialised sequence. A failing write (quota) is not modelled.
- Event routing in `bindEvents` and `getTaskId` (js/modules/tasks.js:12-42, js/modules/timer.js:77-107) is DOM dispatch. Each intent is a method call on the store or the timer.
- Items without a `data-id`, duplicate data-ids or foreign nodes in the list are excluded by `ViewWellFormed`. The code would skip or overwrite them in its id table.
- `ViewWellFormed` also requires every item's delete label to match its text (`LabelConsistent`). The code only rewrites the label when the text changes, so an item whose label was changed from outside and whose text already matches would keep the stale label; that case is not modelled.
- The span's `tabIndex` and `role`, the button's class and text, and the cached `_taskSpan` are constant at creation and are not modelled. Nor is the absent-span/absent-button branch of `updateTaskElement`: `createTaskElement` always makes both.
- Timer.PomodoroTimer.Start: the `await this.initAudio()` before `isRunning = true` is taken as instantaneous. Two `start` calls that interleave at that await would each create a ticker, and the model, running calls one at a time, does not capture that.
- Audio (`initAudio`, `playSound`, js/modules/timer.js:115-135, 223-259) uses Web Audio with floating-point frequencies and ramps. It is not modelled.
- Real time: `setInterval`/`setTimeout` become the explicit `Tick(handle)` and `RunFollowUp()` steps, run in sequence. The 1000 ms and 10 ms delays are not modelled.
- Timer.ValidTime: numbers are unbounded integers. The code's `parseInt` yields doubles, which lose precision above 2^53, and that rounding is not modelled.
- Timer.Format has no contract of its own: its properties are the lemmas FormatDecodes, FormatInjective and FormatExamples.
- Timer.PomodoroTimer.constructor: the HTML default values of the inputs and of the page are parameters.
- Background: the hour (`new Date().getHours()`) and the fetch outcome are parameters. A response body whose fields are missing but that does not throw (an `undefined` url) is folded into the photo it carries. The commented-out link markup is not modelled.
- `js/modules/weather.js`, `js/modules/notification.js` and `js/app.js` are not part of this model. They are a geolocation/fetch client, DOM toasts and wiring. The notifier is only recorded as the sequence of notices handed to it.
