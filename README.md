# uhtpoc page script, modelled in Dafny

This project models the stateful core of `assets/js/app.js`, the script that
enhances the uhtpoc static pages. It covers three parts:

- **Checklist progress store.** Each `form.checklist[data-checklist-id]` keeps its
  step checkboxes in localStorage under `poc-checklist:<listId>`, as a mapping
  from step key to boolean. The script has three handlers:
  - the load handler copies the stored flags onto the boxes;
  - the change handler does a read-modify-write through `safeRead`;
  - the reset handler unticks every box and stores `{}`.

  After each of them, `renderProgress` writes `"<done> of <total> completed (<pct>%)"`.
- **Copy button.** A click trims the snippet's text and does nothing if the result
  is empty. Otherwise it:
  - disables the button;
  - tries the clipboard API, then the textarea fallback;
  - shows "Copied" or "Failed";
  - schedules a timer that restores the original content and enables the button again.
- **Enhancement pass.** `initCopyButtons` gives a button to each `<pre>` that has a
  `<code>` child and to each `<code>` outside a `<pre>`. It marks every element it
  enhances, so running it again adds nothing.

Modules, one per component:

- `ChecklistStore` (checklist_store.dfy) holds the stored value, the parse step, `safeRead`, the write
  of one change, the load result and the localStorage object.
- `ChecklistForm` (checklist_form.dfy) holds the form as a class. Its fields are
  the checkbox array, the shared storage and the progress text. It has the
  handlers as methods.
- `Progress` (progress.dfy) holds the count, the rounded percentage, the progress
  text and a reader for that text.
- `Decimal` (decimal.dfy) renders integers as JavaScript templates do and reads
  them back.
- `CopyButton` (copy_button.dfy) holds `trim` and the button as a class with the fields
  `disabled`, `face` (its inner content) and `scheduled` (the pending restore).
- `Enhance` (enhance.dfy) holds the page elements, their marks as an array, and
  the two marking loops.
- `Optional` (optional.dfy) holds the Option type.

The stored text is abstracted as `Absent | EmptyText | NullText | Malformed | Obj(map)`.
The load handler and `safeRead` treat the text `null` differently:
- In the load handler, `JSON.parse` gives `null`, and indexing it throws inside the
  `try`. The catch then leaves every box as it was, the same as for malformed text.
- In `safeRead`, `|| {}` turns `null` into the empty mapping.

The model keeps both behaviours.

`localStorage.setItem` at assets/js/app.js:50 and :60 can throw, and the script
does not catch it. The model assumes every write succeeds (see below).

The textarea fallback (assets/js/app.js:140-149) skips removing its textarea when
the legacy copy command throws. The model does not track the textarea (see below).

The parsed mapping is an ordinary object, so it inherits the names of
`Object.prototype` (`constructor`, `toString`, `__proto__` and nine more). The model
keeps what the script does with them: `!!saved[step]` is true for a step with such
a name that is not stored, and `saved["__proto__"] = checked` stores nothing when
`__proto__` is not already an own key. See "## Findings".

## Model

| member | source | states |
|---|---|---|
| ChecklistStore.StorageKey | assets/js/app.js:19 | the key is the prefix `poc-checklist:` followed by the list id, unchanged |
| ChecklistStore.StorageKeyInjective | assets/js/app.js:19 | two different list ids never share a storage key |
| ChecklistStore.Parse | assets/js/app.js:31 | parsing throws exactly for malformed text, yields null exactly for `null`, and reads a missing or empty text as `{}` |
| ChecklistStore.SafeRead | assets/js/app.js:73-79 | safeRead returns the stored mapping for an object and the empty mapping for absent, empty, `null` or malformed text |
| ChecklistStore.SerializeRoundTrip | assets/js/app.js:48-50 | documents the JSON abstraction's assumption: what the change handler stringifies reads back through parse and safeRead as the same mapping |
| ChecklistStore.Merge | assets/js/app.js:47-50 | the written mapping sets the changed step to the new value and keeps every other key, known or unknown, with its old value; absent, null or malformed storage counts as `{}`; a `__proto__` step not stored before leaves the mapping unchanged |
| ChecklistStore.LoadedFlags | assets/js/app.js:30-38 | after a load a box whose step is stored takes the stored value; a box whose step is not stored is ticked exactly when the name is inherited from `Object.prototype`; a throwing parse or a stored null leaves every box as it was |
| ChecklistStore.LoadIgnoresUnknownKeys | assets/js/app.js:32-35 | stored keys that match no checkbox do not affect the load |
| ChecklistStore.LoadAfterReset | assets/js/app.js:58-61 | loading what reset stored unticks every box whose step is not an inherited name, and ticks every box whose step is one, whatever the boxes showed |
| ChecklistStore.InheritedStepLoadsTicked | assets/js/app.js:34 | a box whose step is `constructor` loads ticked from `{}` |
| ChecklistStore.Replay | assets/js/app.js:43-53 | after at least one change event the stored value is a JSON object |
| ChecklistStore.LastSet | assets/js/app.js:47-49 | no latest value exists for a step exactly when no change event touched it; a latest value is the value of a change to that step after which no change touches it |
| ChecklistStore.ReplayLastWriteWins | assets/js/app.js:47-50 | after any sequence of changes each step holds the value of its latest change (for `__proto__`, only if it was stored before); untouched keys keep what safeRead found before |
| ChecklistStore.ProtoStepNeverStored | assets/js/app.js:49 | a `__proto__` step not stored before any change is not stored after any sequence of changes |
| ChecklistStore.ProtoStepUntickLost | assets/js/app.js:29-50 | unticking a `__proto__` box on empty storage and reloading ticks it again |
| ChecklistStore.ChangesCommute | assets/js/app.js:47-50 | changes to two different steps give the same stored mapping in either order |
| ChecklistStore.LoadAfterChanges | assets/js/app.js:29-53 | after changes, a reload ticks each box as its latest change set it, or as `!!saved[step]` on the earlier stored value said when no change touched it; this holds for every step except a `__proto__` step not stored before |
| ChecklistStore.LoadedOwnFlags | assets/js/app.js:34 | with an own-property read, a box is ticked exactly when its step is stored as true |
| ChecklistStore.MergeOwn | assets/js/app.js:49 | with an own-property write, the changed step is stored with the new value whatever its name, and every other key keeps its value |
| ChecklistStore.LoadOwnAfterReset | assets/js/app.js:58-61 | with own-property reads, loading what reset stored unticks every box |
| ChecklistStore.LoadOwnAfterChange | assets/js/app.js:29-53 | with own-property reads and writes, a changed box reloads in the state it was given, whatever its step |
| ChecklistStore.Storage.GetItem | assets/js/app.js:75 | getItem returns the stored value, and Absent (null) for a key never written |
| ChecklistStore.Storage.SetItem | assets/js/app.js:50 | setItem replaces the one key and leaves every other key as it was |
| ChecklistForm.Checklist.constructor | assets/js/app.js:17-40 | set-up fixes the storage key, loads the saved state over the boxes' markup state and renders the progress |
| ChecklistForm.Checklist.Load | assets/js/app.js:29-38 | the boxes become the load result of the stored text; storage is not touched |
| ChecklistForm.Checklist.OnChange | assets/js/app.js:43-53 | only box i changes; only this checklist's key is rewritten, with the merged mapping; the progress text matches the boxes |
| ChecklistForm.Checklist.Reset | assets/js/app.js:56-63 | every box ends unticked; the key holds `{}` whatever it held before; other keys keep their values; the progress reads 0 done |
| ChecklistForm.Checklist.RenderProgress | assets/js/app.js:65-70 | the progress text is the rendered count of ticked boxes out of all boxes |
| ChecklistForm.ResetThenReload | assets/js/app.js:17-63 | reset followed by a reload over any markup state leaves every box unticked except those whose step is an inherited name; with no such step the progress text reads as 0 of N, 0% |
| ChecklistForm.ChangeThenReload | assets/js/app.js:17-53 | after a change and a reload over any markup state, the changed box shows the state the user gave it, also for a `__proto__` step already stored as an own key; a `__proto__` box not stored before comes back ticked |
| Progress.Count | assets/js/app.js:67 | the count is at most the number of boxes; it is 0 exactly when none is ticked and full exactly when all are |
| Progress.CountUpdate | assets/js/app.js:67 | changing one box changes the count by exactly that box's change |
| Progress.CountChecked | assets/js/app.js:67 | the counting loop over the checkbox array returns the number of ticked boxes |
| Progress.Percent | assets/js/app.js:68 | pct is 0 for no steps and at most 100; otherwise it is the nearest integer to 100·done/total, with halves rounded up |
| Progress.PercentMonotonic | assets/js/app.js:68 | ticking more boxes never lowers the percentage |
| Progress.PercentEnds | assets/js/app.js:68 | none done gives 0%, and all done gives 100% |
| Progress.PercentExamples | assets/js/app.js:66-68 | 0 of 0 is 0%, 2 of 5 is 40%, 5 of 5 is 100%, and 1/3, 2/3 and 1/8 round to 33, 67 and 13 |
| Progress.StatusText | assets/js/app.js:69 | the progress text reads back as exactly done, total and the rounded percentage |
| Progress.ReadNumberThenOfText | assets/js/app.js:69 | a rendered number followed by a separator reads back as that number |
| Progress.StatusTextInjective | assets/js/app.js:69 | different counts never give the same progress text |
| Decimal.NatToString | assets/js/app.js:69 | a template integer is one or more digits with no leading zero |
| Decimal.DigitsValueOfNatToString | assets/js/app.js:69 | reading the decimal text of n gives n |
| Decimal.NatToStringInjective | assets/js/app.js:69 | different integers have different decimal texts |
| CopyButton.LeadingSpaces | assets/js/app.js:130 | the count covers exactly the whitespace run at the start |
| CopyButton.TrailingSpaces | assets/js/app.js:130 | the count covers exactly the whitespace run at the end |
| CopyButton.Trim | assets/js/app.js:130-131 | the trimmed text is empty exactly when the text is all whitespace; otherwise it neither starts nor ends with whitespace |
| CopyButton.TrimIsInfix | assets/js/app.js:130 | the trimmed text sits inside the original with only whitespace before and after it |
| CopyButton.TrimOfPadded | assets/js/app.js:130 | any whitespace around a text whose ends are not whitespace is removed, and nothing more |
| CopyButton.TrimIdempotent | assets/js/app.js:130 | trimming twice is trimming once |
| CopyButton.TrimExample | assets/js/app.js:130 | "  hello  " trims to "hello" |
| CopyButton.Button.constructor | assets/js/app.js:122-127 | a new button is enabled and shows the copy icon |
| CopyButton.Button.Click | assets/js/app.js:129-153 | a disabled button ignores the click; blank text changes nothing; otherwise the button is disabled and the original content saved; the label is "Failed" only when both mechanisms throw, else "Copied"; the restore timer is scheduled |
| CopyButton.Button.TimerFire | assets/js/app.js:154-157 | the timer puts back exactly the saved content and enables the button; with no timer pending nothing changes |
| CopyButton.ClickThenTimer | assets/js/app.js:129-158 | on every path, a click and then its timer leave the button enabled with its original content; the content is restored once |
| Enhance.Page.constructor | assets/js/app.js:85-87 | a page starts with its markup's marks and no button |
| Enhance.Page.InitCopyButtons | assets/js/app.js:85-120 | exactly the unmarked targets get one button each and every target ends marked; a `<code>` inside a `<pre>` never gets its own; when every target is already marked, no button is added |
| Enhance.Page.EnhanceBlocks | assets/js/app.js:87-101 | each `<pre>` with a `<code>` child ends marked and gets a button only if it was unmarked, even with several `<code>` children |
| Enhance.Page.EnhanceInline | assets/js/app.js:104-119 | each `<code>` outside a `<pre>` ends marked and gets a button only if it was unmarked |
| Enhance.EnhanceTwice | assets/js/app.js:85-120 | a second enhancement pass adds no button, and no element ever has two |

## Findings

| source | as written | input that shows it | evidently intended | confidence | as-written member | corrected member |
|---|---|---|---|---|---|---|
| assets/js/app.js:34 | `!!saved[step]` also reads names inherited from `Object.prototype` | a step `constructor`, storage `{}` (as after reset): the box loads ticked | a step not stored loads unticked | not executed; the names are unlikely step keys | ChecklistStore.InheritedStepLoadsTicked | ChecklistStore.LoadOwnAfterReset |
| assets/js/app.js:49 | `saved[step] = cb.checked` runs the `__proto__` setter, which ignores a boolean | a step `__proto__`, storage absent, box unticked: nothing is stored and a reload ticks it | the step is stored with its value | not executed; the name is an unlikely step key | ChecklistStore.ProtoStepUntickLost | ChecklistStore.LoadOwnAfterChange |

The checklist class follows the script as written. The corrected definitions
(`OwnTruthy`, `LoadedOwnFlags`, `MergeOwn`) show what an own-property test or a
prototype-free object (`Object.create(null)`) would give.

## Left out

- Smooth scrolling (assets/js/app.js:3-13) is left out: it is only DOM lookups and browser scrolling.
- DOM construction is left out, because it is presentation only. This covers:
  - the progress element and its ARIA attributes;
  - the `div.codeblock` and `span.codewrap` wrappers;
  - the button's class and label attributes;
  - the SVG markup of `copyIcon`, which the model shows as the single value `Icon`.
- JSON is abstracted. A stored object maps step keys to booleans. Other JSON values
  (numbers, arrays, non-boolean fields whose truthiness `!!` would test) are not
  modelled. `JSON.stringify` followed by `JSON.parse` is taken to be the identity on
  such objects.
- Storage writes always succeed in the model. `localStorage.setItem` can throw
  (quota, disabled storage), and the script does not catch that.
- A change event whose target is not a step checkbox makes the handler return at
  once (assets/js/app.js:44-45). The model only sends changes to step boxes. Boxes
  added after set-up are not modelled.
- `ChecklistForm.Checklist.OnChange` makes the user's toggle and the handler one step.
  The browser really updates `checked` before it dispatches the event.
- Progress.Percent: computed with exact integers as `(200·done + total) / (2·total)`.
  The script computes `Math.round(done / total * 100)` in binary floating point.
  That can differ by one where the exact value is a half and the float product falls
  just below it.
- CopyButton.Button.Click: the clipboard API and the textarea fallback are two
  boolean inputs: the first says whether the API write rejects, the second whether
  the fallback throws. The following are not modelled:
  - the `await` suspension, which the model treats as one step;
  - the textarea left in the page when the legacy copy command throws;
  - `execCommand` returning false is not told apart from success: the script shows
    "Copied" then, and so does the model.
- CopyButton.Button.TimerFire: the 900 ms delay is not modelled. The timer is an
  explicit event that the caller fires.
- A disabled button receives no clicks. That is browser behaviour, and the model
  writes it as `Inert`.
- `innerText` is the text of the snippet at click time. It is given to `Click` as a string.
