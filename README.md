# Project time tracker — a Dafny model of its timer and project engine

The tracker keeps a list of projects. Each project has a name, a list of elements
(sub-tasks) with their own logged seconds, and a running `totalTime`. At most one timer
runs at a time. It times either a whole project or one element of a project. Ticks
build up in a counter (`currentTime`) and are committed when the timer is stopped or
replaced. Deleting a project or an element that the timer is on throws the pending
ticks away. The tracker shows every time as `HH:MM:SS`, plus the live ticks on the
item being timed.

The model has these files:

- `engine.dfy` (module `Engine`): the component's state as the class `Tracker`. Its
  fields are `projects`, `activeTimer`, `currentTime`, `expanded` and `nextId`. Its
  methods are the event handlers `addProject`, `addElement`, `toggleTimer`,
  `deleteProject`, `deleteElement` and `toggleProject`, plus the one-second `Tick`.
  Every method keeps the invariant `Valid()`:
  - project ids are unique, element ids are unique across all projects, and every id
    is below `nextId`;
  - every project's `totalTime` is at least the sum of its elements' times, so it is
    never negative;
  - no ticks are pending while no timer runs.
- `projects.dfy` (module `Projects`): the new project lists the handlers build with
  `map`, `filter` and spread, written as functions. Beside them are the lemmas that
  show each list update keeps the invariant and keeps existing timer targets in place.
- `display.dfy` (module `Display`): the times shown next to a project and next to an
  element. It also proves that stopping a timer commits what was on screen.
- `time_format.dfy` (module `TimeFormat`): `formatTime`. Hours, minutes and seconds
  are each written in decimal, padded to two digits, and joined by colons. The
  function's own contract states that the string reads back to the same number of
  seconds, and that the hours field never starts with a padding zero beyond two digits.
- `text.dfy` (module `Text`): JavaScript's `String.prototype.trim`, used to decide
  whether a project name is blank.
- `optional.dfy` (module `Optional`): the `Option` type. It stands for `null` and
  for the optional element id.

Ids come from `Date.now()` in the source. Here they come from the counter `nextId`,
which starts at 1 and grows by one for every project and element created. The
uniqueness the source relies on is therefore a proved invariant, not an assumption.

Where the code may surprise a reader, the model follows it as written:

- `addProject` checks the trimmed name but stores the name as typed.
- `addElement` does not check the name, and does not check that the project exists.
- `toggleTimer` starts a timer on any `(projectId, elementId)` without checking that
  such a project or element exists.
- `deleteElement` compares only the element id with the running timer, not the
  project id. Because element ids are unique, this clears the timer exactly when it
  runs on the deleted element, as long as the handler is called with the element's
  real owner. Called with another project id, it clears the timer and removes
  nothing.

## Model

| member | source | states |
|---|---|---|
| Engine.Tracker.constructor | app.js:14-19 | Starts with no projects, no timer, no ticks and nothing unfolded, with the invariant holding. |
| Engine.Tracker.AddProject | app.js:40-53 | A blank name changes nothing. Otherwise exactly one project is appended: it has a fresh id not used by any project, the untrimmed name, no elements and total 0, and it is marked unfolded. The timer and ticks are untouched and the invariant is kept. |
| Engine.Tracker.AddElement | app.js:55-69 | The project list becomes the one where only project `projectId` gains one element with a fresh id, the name and time 0. The timer, ticks and fold state are untouched, and the invariant and a timer's target are kept. |
| Engine.Tracker.ToggleTimer | app.js:71-101 | On the running target: its ticks are committed and the timer stops. Otherwise: the running timer's ticks, if any, are committed to its own target, then the requested target runs. Either way the counter is 0 and the invariant holds. A timer on an existing target stays on an existing target when the requested one exists. |
| Engine.Tracker.StopActive | app.js:72-93 | The running timer's ticks go to its target through `CommitTicks`, the timer is cleared, the counter is 0, and the invariant is kept. |
| Engine.Tracker.DeleteProject | app.js:103-109 | The list becomes `DropProject` of the old one, so no project with that id remains. A timer on that project (project- or element-level) is cleared with its ticks discarded; any other timer keeps running with its ticks. |
| Engine.Tracker.DeleteElement | app.js:111-127 | The list becomes `DropElementFrom` of the old one. A timer whose element id is the deleted one is cleared with its ticks discarded; any other timer keeps running. The invariant is kept. |
| Engine.Tracker.ToggleProject | app.js:129-134 | Flips the project's unfolded flag, with a project never toggled counting as folded. Nothing else changes. |
| Engine.Tracker.Tick | app.js:26-28 | While a timer runs, the counter grows by exactly one and nothing else changes. |
| Engine.StopKeeps | app.js:72-93 | Committing a running timer's ticks and clearing it keeps the whole invariant: unique ids, totals covering element times, no pending ticks while idle. |
| Engine.AppendProjectKeeps | app.js:40-51 | The counter's id is not used by any project yet. Appending a project under it and advancing the counter keeps the whole invariant. |
| Engine.AppendElementKeeps | app.js:55-69 | The counter's id is not used by any element yet. Adding an element under it and advancing the counter keeps the whole invariant. |
| Engine.DeleteProjectKeeps | app.js:103-109 | Filtering out a project keeps the whole invariant, whether the timer is kept with its ticks or cleared with the counter at 0. |
| Engine.DeleteElementKeeps | app.js:111-127 | Removing an element from its project keeps the whole invariant, whether the timer is kept with its ticks or cleared with the counter at 0. |
| Text.Trim | app.js:41 | The trimmed name is empty exactly when the name is made only of JavaScript whitespace and line terminators. A non-empty result neither starts nor ends with such a character. |
| TimeFormat.Show | app.js:37 | The decimal form of a number is all digits. It has one digit exactly below 10, and at most two exactly below 100. It starts with `0` only for the number 0, so it has no leading zeros. |
| TimeFormat.ValueShow | app.js:37 | Reading the decimal form back gives the number shown. |
| TimeFormat.PadStart2 | app.js:37 | Padding gives a string of length two, or the string's own length if it is longer. The string is kept as the suffix and only zeros are put in front. |
| TimeFormat.ClockFields | app.js:34-36 | Hours times 3600, plus minutes times 60, plus seconds gives back the input. Minutes and seconds are below 60, and hours fit in two digits exactly below 360000 seconds. |
| TimeFormat.FormatTime | app.js:33-38 | The string has colons at its two fixed places from the end, and its three fields are digit strings. The fields read back to the input seconds, minutes and seconds are below 60, and the string is exactly 8 characters long when hours are below 100. Hours are never cut, and beyond two digits the hours field has no leading zero, as `toString()` writes it. |
| Projects.AddTime | app.js:78-80 | Adding ticks to element `eid` keeps every element's id, name and order, and adds the ticks to exactly the matching elements' time. |
| Projects.AddTimeSum | app.js:78-81 | With unique ids, adding ticks to one element raises the sum of element times by the ticks if the element is there, and by 0 if it is not. |
| Projects.FindElement | app.js:118 | Finds an element exactly when one with that id is present, and then returns the first such element. |
| Projects.TimeOf | app.js:118-122 | The time subtracted on deletion is the time of the first element with that id, as `find` returns it, and 0 when no element has that id. |
| Projects.DropElement | app.js:121 | An element is kept exactly when it was there and its id is not the deleted one. |
| Projects.DropElementAppend | app.js:121 | Filtering out an id works piece by piece over a concatenation, so the kept elements stay in their old order. |
| Projects.DropElementCount | app.js:121 | The filtered list holds no copy of the deleted id, and every other id as often as before. |
| Projects.DropElementSum | app.js:118-122 | With unique ids, removing an element lowers the sum of element times by exactly the time that is subtracted from the total. |
| Projects.MapMatching | app.js:56-68 | The project-wise update used by the handlers keeps the length. It applies the update to exactly the projects with the given id and leaves the others as they were. |
| Projects.WithElement | app.js:58-65 | Appending an element keeps the project's id, name and total, and puts the element last. |
| Projects.Commit | app.js:74-88 | Committing ticks to one project keeps its id, name and element ids, and adds the ticks to its total. A project-level commit leaves the elements alone. With unique ids, an element commit raises the sum of element times by the ticks exactly when the element is there. |
| Projects.Prune | app.js:117-123 | Deleting an element from one project keeps its id and name. The elements become `DropElement` of the old ones, the total drops by the element's time, and with unique ids the total still covers the elements. |
| Projects.AddElementTo | app.js:55-69 | Only projects with that id gain the element, as their last element. An unknown project id leaves the whole list unchanged. |
| Projects.CommitTicks | app.js:73-91 | The stop branch's list: every project other than the target is unchanged. The target project's total grows by the ticks. Within it, only the element named by an element timer grows by the ticks. Every project and element keeps its id and name, and every list keeps its length. |
| Projects.DropElementFrom | app.js:116-126 | Only projects with that id lose the element and its time. Every other project is unchanged. |
| Projects.DropProject | app.js:108 | A project is kept exactly when it was there and its id is not the deleted one. |
| Projects.DropProjectAppend | app.js:108 | Filtering out an id works piece by piece over a concatenation, so the kept projects stay in their old order. |
| Projects.DropProjectIds | app.js:108 | The project ids left are the old ones with every copy of the deleted id taken out. |
| Projects.AddProjectKeeps | app.js:40-53 | Appending a project with the counter's id and then advancing the counter keeps ids unique and below the counter, and keeps totals covering elements. |
| Projects.AddProjectKeepsTargets | app.js:48 | A timer target that exists before a project is appended still exists after. |
| Projects.AddElementKeeps | app.js:55-69 | Adding an element with the counter's id keeps all ids unique and below the advanced counter, and keeps totals covering elements. |
| Projects.AddElementKeepsTargets | app.js:56-68 | A timer target that exists before an element is added still exists after. |
| Projects.CommitKeeps | app.js:72-93 | Committing ticks keeps ids unique and issued, and keeps every total covering its elements, for both project and element timers. |
| Projects.CommitCountsOnce | app.js:94-99 | With unique project ids, switching timers commits the old timer's ticks exactly once. The sum of all totals grows by exactly the ticks when the old target's project exists, and by nothing otherwise. |
| Projects.CommitKeepsTargets | app.js:94-98 | Committing the old timer keeps every existing target in place, so the target about to start still exists. |
| Projects.DropElementKeeps | app.js:111-127 | Deleting an element keeps ids unique and issued, and keeps every total covering its remaining elements. |
| Projects.DropElementKeepsTargets | app.js:111-127 | A timer target that is not the deleted element still exists after the deletion. |
| Projects.DropProjectKeeps | app.js:103-109 | Deleting a project keeps ids unique and issued, and keeps totals covering elements. |
| Projects.DropProjectKeepsTargets | app.js:103-109 | A timer target on another project still exists after the deletion. |
| Projects.ElementOwnerUnique | app.js:112 | With unique element ids, an element id belongs to exactly one project. This is why comparing only element ids finds the right timer. |
| Projects.ConsistentTotalsNonNegative | app.js:122 | When totals cover their elements, no total is negative, even though deletion subtracts. |
| Display.ProjectShown | app.js:200 | A project's shown total is its committed total plus the ticks exactly when the timer is the project-level timer on that project, so it is at least the committed total. Once a tick has passed, it differs from the committed total exactly on that target. |
| Display.ShownTotalFormattable | app.js:200 | When totals cover their elements, a shown total is never negative, so it can be passed to `formatTime`, which gives at least `HH:MM:SS`. |
| Display.ElementShown | app.js:221 | An element's shown time is at least its committed time. Once a tick has passed, it differs exactly when the timer's element id is this element's id. |
| Display.ElementLiveIffTarget | app.js:221 | With unique element ids and the timer on an existing target, an element shows live ticks exactly when the timer is on that element of that very project. |
| Display.StopCommitsShownTime | app.js:72-93 | After a stop, every element holds the time it showed just before. Every project total holds its shown total, plus the ticks when an element timer ran in that project, because the "Total" line never showed those. |

## Left out

- The SVG icon components (app.js:4-11) and all rendering (app.js:136-284). They are presentation only. Only the two shown-time sums (app.js:200, 221) are modelled.
- The DOM mount (app.js:287-289).
- The `setInterval`/`clearInterval` effect (app.js:23-31). Its effect is the `Tick` method, which needs a running timer. Wall-clock timing and the effect's cleanup are not modelled.
- `Date.now()` ids (app.js:43, 61). They are replaced by the counter `nextId`. `AddElement` advances the counter even when no project has that id. Two clicks in the same millisecond, which could give the same id, are not modelled.
- The input buffers and UI flags `showNewProject`, `newProjectName`, `addingElementTo` and `newElementName` (app.js:17-18, 20-21), and the blank check done before `addElement` is called (app.js:245, 256). Names are parameters. `addProject` clearing its input and closing its form (app.js:49-50) is not modelled.
- JavaScript number limits: ids and seconds are unbounded integers, with no floating-point precision limit. JavaScript's truthiness of an element id is read as "an element id is given", since the clock never yields id 0.
- `padStart` for strings longer than the width, and the template string itself, are modelled only as far as the `HH:MM:SS` form needs.
- React's batching of state updates is read as the sequence of assignments that the final state shows. In the switch case of `toggleTimer`, the inner stop's list update is the only list update, so it is kept.
- Engine.Tracker.ToggleTimer: keeps `TimerOnExisting` only when the requested target exists, because the source starts a timer on whatever ids it is given.
