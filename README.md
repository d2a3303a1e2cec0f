# goinstant/form: a verified model of the synchronisation core

The widget keeps the fields of an HTML form in step across browsers through a
shared key. Whenever a user changes an element, the widget stores the
element's value under a key path. That path names the element by tag, type,
escaped name and its index among the elements that share those. Every other
page decodes the path, finds the element at the same place in its own form
and sets its value. Each page also shows an indicator naming the user who
made the change.

This project models that core in Dafny and proves what it promises. The
modules follow the repository's files:

| module | file | form |
|---|---|---|
| `ElementNames` | lib/element_names.js | functions: `escape`, `unescape`, the two markers |
| `NameIndex` | lib/name_index.js | functions: `get`, `find` over a form as a sequence of elements |
| `ElementValue` | lib/element_value.js | functions for the getters; methods with loops for the setters, which update the element (a class) in place; `set` also carries the browser's radio group rule, so checking a radio unchecks the other buttons of its group in the form |
| `KeyPath`, `Capture`, `Receive`, `Options` | lib/form.js | functions: `keyifyIdentity`/`dekeyifyIdentity`, the `_capture` decision, the receiving end of `_setEl`, the constructor's option checks |
| `FormController` | lib/form.js | class `Form`: lifecycle state, the error channel, the remote key as a map plus an operations log, and capture, receive and reset as methods |
| `IndicatorView` | lib/view.js | class `View`: the `_items` list, with one removal timer per item on a logical clock |
| `Dom`, `Text`, `Wrappers` | (support) | form elements as a class; JavaScript's `split`, `join`, `_.last`, `String(n)` and array-index property keys; `Option`/`Result` |

The main results are:

- `Receive.CaptureThenSet` and `FormController.Mirror`. Take an element captured on one page. On any page whose elements have the same tags, types and names in the same order, the element at the same position is located. Setting what it receives makes it read back the captured value. This holds whatever prefix the platform puts in front of the path. A radio button is checked instead, and the browser unchecks the rest of its group. The element's name must survive `unescape(escape(name))`; `ElementNames.HyphenatedNameRoundTrips` shows that names such as `first-name` do.
- `ElementNames.UnescapeEscape`. `unescape(escape(s)) == s` holds for every name without `-` and without `GILB`. `ElementNames.RoundTripFailsOnMarkerText` shows that `]GILB[` breaks the round trip.
- `NameIndex.FindGet`. `find(form, tag, name, get(form, el))` returns `el` when all elements with el's tag and name share its type. `NameIndex.FindIgnoresType` shows what goes wrong when they do not.
- `IndicatorView.View.AddIndicator` and `IndicatorView.InvAdded`. There is one item per user and each armed timer falls due `displayTimer` after the last change.
- The timers as the code runs them. Each timer calls `removeIndicator` as written, which removes the first item whatever indicator it is given (see "Findings"). `IndicatorView.View.ElapseAsWritten` runs the timers that way. `IndicatorView.AddThenWaitAsWritten` shows that an indicator at the front of the list is gone once `displayTimer` has elapsed. `IndicatorView.UnitTestResetsTimer` shows that a second add re-arms the timer. `IndicatorView.UnitTestTracksEachTimer` shows two indicators leaving one at a time. `IndicatorView.AsWrittenTimerKeepsItsItem` shows a timer removing the wrong item.
- The timers as intended. `IndicatorView.View.Elapse` removes exactly the items whose timers fall due. `IndicatorView.AddThenWait` shows that any indicator left alone for `displayTimer` is gone.
- `FormController.Form.Initialize`. Each element ends in the state that the stored entries reaching it write, in order, with a radio unchecked by any later entry that checks another button of its group. `FormController.HydratedSingle` states it for an element that one entry reaches, and `FormController.HydratedUntouched` for one that no entry reaches.

Where the code's own checks do not do what they say, the model follows what the code does:

- **`removeIndicator` on an unknown indicator.** Its doc comment (lib/view.js:90-94) says it removes the indicator it is given, and the guard at lib/view.js:98-100 is meant to throw "Attempt to remove unknown indicator". The guard never fires: `_.find` returns an item or `undefined`, never a negative number, so the first item is removed instead (see "Findings").
- **An invalid key handle.** The constructor's message 'Form: options.key must be a Key object.' (lib/form.js:118-120) says a non-key is rejected there. The test `!opts.key instanceof goinstant.Key` negates `opts.key` first and so is always false. A value that is not a key makes the constructor throw later, at lib/form.js:166, where `opts.key.key(...)` is called. `Options.Validate` checks for a key last, after every test that really runs.

## Model

| member | source | states |
|---|---|---|
| ElementNames.Escape | lib/element_names.js:17-21 | the two global replaces equal the per-character escape; the result holds no `[` and no `]`; its length is the input's plus 5 per bracket; a bracket-free name is unchanged |
| ElementNames.TwoPassesAreOne | lib/element_names.js:18-19 | replacing `[` and then `]` over the whole string is the same as escaping each character in one pass |
| ElementNames.EscapeEachFacts | lib/element_names.js:12-20 | the one-pass escape leaves no bracket, adds 5 characters per bracket, and changes nothing without brackets |
| ElementNames.EscapeEachConcat | lib/element_names.js:17-21 | escaping distributes over concatenation |
| ElementNames.EscapeAddsOnly | lib/element_names.js:17-21 | escaping introduces no character that is neither in the input nor in a marker |
| ElementNames.Unescape | lib/element_names.js:23-33 | unescaping never lengthens a string |
| ElementNames.UnescapeMarkerFree | lib/element_names.js:23-33 | a string containing neither marker is unchanged by `unescape` |
| ElementNames.UnescapePlain | lib/element_names.js:23-33 | a string without `-` (such as `[]`) is unchanged by `unescape` |
| ElementNames.EscapePlain | lib/element_names.js:17-21 | a bracket-free name, marker text such as `-GIRB--GILB-` included, is unchanged by `escape` |
| ElementNames.FirstPass | lib/element_names.js:30 | on an escaped name without `-` or `GILB`, the first pass of `unescape` restores every `[` and leaves exactly the escaped `]`s |
| ElementNames.SecondPass | lib/element_names.js:31 | the second pass of `unescape` restores a name without `-` whose `]`s were escaped |
| ElementNames.UnescapeEscape | lib/element_names.js:12-33 | `unescape(escape(s)) == s` for every s without `-` and without `GILB` |
| ElementNames.RoundTripFailsOnMarkerText | lib/element_names.js:12-33 | `]GILB[` escapes to `-GIRB-GILB-GILB-`, which unescapes to `-GIRB[GILB-`, not back to `]GILB[` |
| ElementNames.MarkerTextFirstPass | lib/element_names.js:30 | the first pass over `-GIRB-GILB-GILB-` replaces the `-GILB-` that starts at the first marker's trailing dash |
| ElementNames.MarkerTextSecondPass | lib/element_names.js:31 | the second pass finds no `-GIRB-` in `-GIRB[GILB-` |
| ElementNames.EscapeWordPair | lib/element_names.js:17-21 | a bracket-free word followed by any two characters escapes to the word followed by each character's escape |
| ElementNames.PlainNameRoundTrips | lib/element_names.js:12-33 | a name without brackets and without either marker survives `unescape(escape(name))`, dashes included |
| ElementNames.HyphenatedNameRoundTrips | lib/element_names.js:12-33 | a name `a-b` without brackets and without `G` (such as `first-name`) survives `unescape(escape(name))`, though it contains `-` |
| ElementNames.EscapeArrayPair | lib/element_names.js:17-33 | `array` followed by any two brackets (`array[]` included) escapes to `array` followed by their markers, and unescapes back |
| NameIndex.WithShape | lib/name_index.js:36-44 | exactly the form's elements with the given tag, type and name are kept |
| NameIndex.Named | lib/name_index.js:60-64 | exactly the form's elements with the given tag and name, whatever their type, are kept |
| NameIndex.IndexOf | lib/name_index.js:46 | the position of the first occurrence, or -1 exactly when the element is absent |
| NameIndex.Get | lib/name_index.js:35-49 | the result lies in [-1, count); it is -1 exactly when el is not in the form; otherwise el sits at that position among the elements of its shape |
| NameIndex.GetCountsPredecessors | lib/name_index.js:35-49 | in a form holding each node once, `get` counts the elements of el's shape that come before it in document order |
| NameIndex.GetSameLayout | lib/name_index.js:35-49 | two forms laid out alike give the elements at the same position the same `get` index |
| NameIndex.Find | lib/name_index.js:51-67 | an element is found exactly when the index is within the number of tag-and-name matches; it is the index-th of those matches in document order, a form element with that tag and name |
| NameIndex.FindGet | lib/name_index.js:35-67 | when all elements with el's tag and name share its type, `find` with el's tag, name and `get` index returns el |
| NameIndex.FindIgnoresType | lib/name_index.js:59-67 | a checkbox after a same-named text input has `get` index 0, and `find` with that index returns the text input |
| NameIndex.UnitTestForm | lib/name_index.js:35-67 | in the unit tests' form the third input named `a` has index 1; indices 0, 1 and 2 find `first`, `third` and nothing; the textarea is never counted |
| ElementValue.KindOf | lib/element_value.js:66-89 | the accessor is chosen by tag, `type` attribute and `multiple`: each kind exactly for its case |
| ElementValue.SelectedPositions | lib/element_value.js:37-45 | the positions of exactly the selected options, strictly ascending |
| ElementValue.SelectedIndex | lib/element_value.js:47 | the first selected option, or -1 when none is |
| ElementValue.SetInputValue | lib/element_value.js:25-35 | a checkbox or radio gets `checked`, any other input `value`, as `set` specifies |
| ElementValue.SetSelectedIndices | lib/element_value.js:51-64 | a multiple SELECT is cleared and the listed options selected one by one (an index naming no option throws); a single SELECT selects only the first index |
| ElementValue.Set | lib/element_value.js:78-89 | the element's new state and whether it threw are those `Write` gives for its kind; every other element of its form is as `Beside` says: unchanged, except that checking a radio button unchecks the rest of its group |
| ElementValue.Beside | lib/element_value.js:25-30 | the effect of `el.checked = true` on another element: a radio of the same form and non-empty name is unchecked; anything else keeps its `checked`, value and options |
| ElementValue.UncheckGroup | lib/element_value.js:25-30 | the browser's radio group rule: every other button of the group is unchecked, every other element and the checked button itself are unchanged |
| ElementValue.CheckableRoundTrip | lib/element_value.js:12-30 | a checkbox or radio set to b reads back b |
| ElementValue.TextRoundTrip | lib/element_value.js:17-33 | a text input or a textarea set to v reads back v, the empty string included |
| ElementValue.MultiSelectSet | lib/element_value.js:51-60 | with in-range indices, exactly the listed options are selected, and reading back gives them ascending and without repeats |
| ElementValue.MultiSelectOutOfRange | lib/element_value.js:57-59 | an index that names no option makes the update throw |
| ElementValue.SingleSelectSet | lib/element_value.js:61-63 | a single SELECT applies only the first index and reads it back, or -1 when it names no option |
| ElementValue.MirrorValue | lib/element_value.js:66-89 | what `get` reads from one element, `set` writes into another of the same kind with as many options without throwing, and `get` reads the same there |
| ElementValue.UnitTestSingleGet | lib/element_value.js:46-48 | a single SELECT with its second option selected reads `[1]` |
| ElementValue.UnitTestMultipleGet | lib/element_value.js:38-45 | a multiple SELECT with the first two of three options selected reads `[0, 1]` |
| ElementValue.UnitTestMultipleSet | lib/element_value.js:52-60 | setting `[0, 1]` on three options selects the first two |
| ElementValue.UnitTestSingleSet | lib/element_value.js:61-63 | setting `[1]` on a single SELECT of three options selects the second |
| Text.SplitJoin | lib/form.js:540-557 | splitting on `/` undoes joining when no part holds `/` |
| Text.SplitConcat | lib/form.js:499 | a separator splits a string into the parts on either side of it |
| Text.SplitDropsSeparators | lib/form.js:550 | no part of a split holds the separator |
| Text.Last | lib/form.js:499 | `_.last(xs, 4)` gives the last four elements, or all of them when there are fewer |
| Text.NatToString | lib/form.js:541-546 | the decimal form of a number: digits only, no leading zero |
| Text.ArrayIndex | lib/name_index.js:66 | only the canonical decimal form of a non-negative integer names an array slot |
| Text.ArrayIndexOfInt | lib/name_index.js:66 | `String(i)` names slot i when i >= 0 and no slot otherwise |
| KeyPath.Dekeyify | lib/form.js:549-557 | decoding succeeds exactly when there are at least three segments; tag, type and unescaped name come from the first three |
| KeyPath.SplitKeyify | lib/form.js:540-550 | a joined identity without `/` in its parts splits back into its four parts |
| KeyPath.DekeyifyKeyify | lib/form.js:540-557 | decoding inverts encoding, up to the unescaping of the name |
| KeyPath.ReceivePathPrefixed | lib/form.js:498-499 | whatever prefix the platform adds, `_receive` works on the identity's own four segments |
| KeyPath.PrefixedKeyDecodes | lib/form.js:498-501 | a key path under any prefix decodes to the identity it encodes, with the name unescaped |
| KeyPath.NestedKeyExample | lib/form.js:498-501 | the unit test's key `…/INPUT/text/something/1` decodes to the text input `something` with index 1 |
| KeyPath.KeyifyExample | lib/form.js:540-547 | the second text input named `something` is stored under `INPUT/text/something/1` |
| KeyPath.ShortKeyFails | lib/form.js:549-557 | a path of two segments leaves the name missing and fails |
| Options.WithDefault | lib/form.js:116 | a missing or undefined option takes its default; any other value is kept |
| Options.Validate | lib/form.js:104-142 | options are accepted exactly when they are well formed: an object with known names only, a FORM element, an `include` that is absent or an array of strings, a number `displayTimer`, a boolean `ui` and a key; accepted options keep `include` and take the given `displayTimer` and `ui` or the defaults |
| Options.RejectsEachBadOption | lib/form.js:104-142 | unknown names, a non-FORM `el`, a non-array `include`, an `include` holding a non-string, a non-number `displayTimer` and a non-boolean `ui` are each rejected with their own error |
| Options.AcceptsMinimalOptions | lib/form.js:104-142 | a key, a FORM element and a room are accepted, with `displayTimer` 1000 and `ui` true |
| Options.RejectsUnitTestOptions | lib/form.js:104-166 | the unit tests' bad options are rejected: an unknown name, a missing or non-key `key`, a missing or non-FORM `el` |
| Capture.Decide | lib/form.js:352-420 | a change is skipped exactly when the element is ignored or excluded; otherwise it is stored exactly when it is named and its escaped name fits in 128 characters; a named element whose escaped name is longer is rejected with `NameTooLong`; the error says which check failed; a stored change uses the element's key path and value |
| Capture.SkipComesFirst | lib/form.js:357-380 | a nameless element outside the include list is skipped, not reported |
| Capture.StoredPathDecodes | lib/form.js:392-412 | for a name without `/` that survives `unescape(escape(name))`, a stored path, under any prefix, decodes to the element's tag, type, name and key index |
| Capture.TextInputPath | lib/form.js:392-419 | the first text input named `myname` is stored under `INPUT/text/myname/0` with its value |
| Capture.RadioStoresPosition | lib/form.js:401-416 | checking the second radio of a group stores 1 under the group's path with index 0 |
| Capture.EscapeSlashFree | lib/element_names.js:17-21 | escaping a name without `/` adds no `/` |
| Receive.Resolve | lib/form.js:438-441 | for a radio the stored value becomes the index and the value set is `true`; any other identity and value pass through |
| Receive.Locate | lib/form.js:443-448 | an element is found exactly when the index is a canonical array index within the number of tag-and-name matches; it is that match |
| Receive.Deliver | lib/form.js:498-503 | a key path is undecodable exactly when it has fewer than three segments; otherwise the identity is decoded and reversed for a radio, and the delivery is `NotFound` of that identity exactly when it locates nothing, else the located element (in the form) with the reversed value |
| Receive.CaptureThenLocate | lib/form.js:392-448 | an element whose name has no `/` and survives `unescape(escape(name))`, captured on one page, is located at the same position on a page laid out alike, under any prefix; a radio receives `true` |
| Receive.CaptureThenSet | lib/form.js:392-463 | for the same names, what that element receives, once set, reads back the captured value (for a non-radio) |
| Receive.CapturedValueMirrors | lib/form.js:414-463 | a captured non-radio value set on an element of the same kind reads back the same |
| Receive.RadioReceive | lib/form.js:438-448 | a radio group's stored position i selects the i-th button of the group's name, which is set `true` |
| Receive.UndefinedIndexNotFound | lib/form.js:549-556 | a path without a fourth segment leaves the index `undefined`, which names no element |
| Receive.NestedKeyDelivery | lib/form.js:498-503 | the unit test's nested key reaches the second element named `something`, whatever precedes it |
| FormController.Report | lib/form.js:295-302 | an error is emitted exactly when there is a listener and thrown otherwise |
| FormController.RemoveFirst | lib/form.js:285-292 | removing a listener that is not there changes nothing; one that is there goes once |
| FormController.RemoveFirstCounts | lib/form.js:291 | `off` removes one occurrence of the listener, all other listeners kept |
| FormController.OffUndoesOn | lib/form.js:276-292 | `off` after `on` of a new listener restores the listeners |
| FormController.Form.constructor | lib/form.js:166-180 | a new form is NEW and local, with no listeners, bindings or operations, and a view exactly when `ui` is set |
| FormController.Form.On | lib/form.js:276-283 | only `error` listeners are added; any other event name throws and changes nothing |
| FormController.Form.Off | lib/form.js:285-292 | only `error` listeners are removed; any other event name throws and changes nothing |
| FormController.Form.EmitOrThrow | lib/form.js:295-302 | the error reaches the listeners when there are any and is thrown otherwise |
| FormController.Form.Capture | lib/form.js:352-433 | a skipped change writes nothing; a refused one reports its error and writes nothing; a stored one sets the path to the value and logs one set, unless the key reports an error, which is reported |
| FormController.Form.ApplyDecision | lib/form.js:375-433 | carries out a capture decision as `Capture` states it |
| FormController.Form.SetEl | lib/form.js:435-475 | with no element found, an error is reported and no element or indicator changes; otherwise the found element gets the value and every other element is as `Beside` says (checking a radio unchecks the rest of its group, nothing else changes); for a user's update outside a click region the items become `Added` of the old ones for that user, with a timer due `displayTimer` from now, and otherwise they are unchanged; nothing is written to the key |
| FormController.Form.SetFound | lib/form.js:463-474 | the found element is set, every other element is as `Beside` says (only the rest of a checked radio's group changes, to unchecked), and the items become `Added` for the user, or stay as they were, exactly as `SetEl` states |
| FormController.Form.Receive | lib/form.js:498-504 | a path without a name throws and changes nothing; an element not found is reported on the error channel (emitted when the form has error listeners, thrown otherwise) and nothing else changes; otherwise the located element changes to the value delivered and the others as `Beside` says (the rest of a checked radio's group is unchecked), nothing is emitted, a failed set throws, and an indicator for the user is added exactly when the set completes, the element is outside a click region and the change came from a user |
| FormController.Form.Reset | lib/form.js:516-532 | the key is removed (and one remove logged) only while `local` holds; a failed remove is reported |
| FormController.Form.FormReset | lib/form.js:312 | a form reset reaches `_reset` only while the DOM listeners are bound; then, for a local reset, a failed remove is reported on the error channel with the key unchanged, and a successful one empties the key, logs one remove and completes with nothing emitted; otherwise nothing changes |
| FormController.Form.ReceiveReset | lib/form.js:534-538 | a remote remove resets the form with no remove sent back and `local` true again |
| FormController.Form.HandleUserChange | lib/form.js:510-514 | the user's indicator, if any, takes the new name and colour; nothing else changes |
| FormController.Form.Initialize | lib/form.js:185-244 | only from NEW (otherwise a callback error, nothing changed); a failed task returns to NEW with the view mounted, the platform listeners bound and no element changed; otherwise either everything is bound and the state is INITIALIZED, or applying a stored value threw and the state stays INITIALIZING; on success each element holds `Hydrated` of its old state over the entries that list the key's contents, and the errors emitted are exactly the `NotLocated` ones of the entries that reach no element; no indicator is shown; with no error listener nothing is emitted; the key is never written to |
| FormController.Form.Launch | lib/form.js:217-242 | after both tasks: the user feed bound, the entries applied, then the DOM bound and INITIALIZED unless an entry threw; the elements, emitted errors and indicators as for `Initialize` |
| FormController.Form.Hydrate | lib/form.js:221-236 | the `_.each` walk applies the entries in order: unless one throws, the elements' states are `HydratedAll` of their old states, pointwise `Hydrated`, and `emitted` grows by `Missed`, one `NotLocated` per entry that reaches no element; the view's items, the lifecycle, the key and the view's mounting are untouched; with no error listener nothing is emitted |
| FormController.Form.HydrateStep | lib/form.js:224-233 | the walk's loop body carries the elements' states and the emitted errors one entry further, and leaves the view's items alone |
| FormController.Form.HydrateEntry | lib/form.js:224-233 | one entry's `_setEl` with the unescaped name and no user: the elements' states become `StepAll` of the old ones, no indicator is added, and the only error emitted is the entry's `NotLocated` when it reaches no element |
| FormController.Hydrated | lib/form.js:221-236 | hydration keeps an element's number of options |
| FormController.ApplyEntry | lib/form.js:224-233 | an entry writes its value to the element it reaches, unchecks the element when it checks another button of its radio group (`Unchecks`), and otherwise leaves it as it was |
| FormController.RadioEntryChecksOneButton | lib/form.js:438-463 | a stored radio position leaves the button it reaches checked and every other button of that group unchecked, whatever they held |
| FormController.Snapshots | lib/form.js:221-236 | the k-th state is the k-th element's |
| FormController.StepAll | lib/form.js:224-233 | the k-th state is one entry applied to the k-th element |
| FormController.HydratedAllStep | lib/form.js:221-236 | hydrating one more entry is one more `StepAll` |
| FormController.HydratedAllAt | lib/form.js:221-236 | hydrating all the elements is hydrating each on its own |
| FormController.HydratedUntouched | lib/form.js:221-236 | an element that no entry reaches, and whose radio group no entry checks, keeps its state |
| FormController.HydratedSingle | lib/form.js:221-236 | an element that exactly one entry reaches, and whose group no other entry checks, ends as that entry writes it, whatever the order |
| FormController.Form.Destroy | lib/form.js:246-274 | only from INITIALIZED (otherwise a callback error); ends DESTROYED with everything unbound, the view detached and every indicator timer cleared |
| FormController.Mirror | lib/form.js:352-475 | for a name without `/` that survives `unescape(escape(name))`, a change captured on one page and received on another laid out alike completes on both, and the element at the same position then reads the captured value; for a radio that button is checked and every other button of its group unchecked |
| IndicatorView.FindUser | lib/view.js:138-144 | the first item of the user, or none when the user has no item |
| IndicatorView.FindNode | lib/view.js:96 | the first item showing the node, or none |
| IndicatorView.RemoveAt | lib/view.js:103 | `splice(i, 1)`: one element fewer, the others in order |
| IndicatorView.Added | lib/view.js:55-73 | a user with an item keeps the list length, and only that item's timer is re-armed; otherwise exactly one item is appended; either way the user then has an item |
| IndicatorView.InvAdded | lib/view.js:57-68 | adding keeps one item per user and per node, with no armed timer overdue |
| IndicatorView.RemovedIntended | lib/view.js:95-106 | the item showing the node goes, or nothing changes when there is none |
| IndicatorView.RemovedAsWritten | lib/view.js:95-106 | the first item goes, whatever the node |
| IndicatorView.RunAsWritten | lib/view.js:72-105 | the timers due by the target fire as written until none is left due; no item is added and no node attached |
| IndicatorView.Disarmed | lib/view.js:39-45 | every item's timer is cleared and the items stay |
| IndicatorView.View.constructor | lib/view.js:22-27 | a new view has no items and is not attached |
| IndicatorView.View.Initialize | lib/view.js:32-34 | the container is attached; nothing else changes |
| IndicatorView.View.AddIndicator | lib/view.js:54-73 | the items become `Added` of the old ones with a fresh timer due `displayTimer` from now; a new node is attached only for a user without an item |
| IndicatorView.View.RemoveIndicatorAsWritten | lib/view.js:95-106 | the first item is removed whatever the node; an empty list or a detached node throws |
| IndicatorView.View.RemoveIndicator | lib/view.js:95-106 | the item showing the node is removed and the node detached; an unknown node throws and changes nothing |
| IndicatorView.View.UpdateIndicator | lib/view.js:114-131 | only the user's item changes, and only its name and colour; without an item nothing changes |
| IndicatorView.View.Destroy | lib/view.js:39-45 | clears every item's timer, keeps the items and detaches the container; throws without a mounted container |
| IndicatorView.View.Elapse | lib/view.js:72-73 | with `removeIndicator` as intended: as the clock advances, exactly the items whose timers fall due are removed and their nodes detached |
| IndicatorView.View.Fire | lib/view.js:72-73 | the next timer fires with `removeIndicator` as intended: the clock moves to its due time, its item goes and its node is detached |
| IndicatorView.View.ElapseAsWritten | lib/view.js:72-105 | as the clock advances, the items and the attached nodes become those `RunAsWritten` leaves |
| IndicatorView.View.FireAsWritten | lib/view.js:72-105 | the next timer fires as written: the clock moves to at most the target, the list shrinks, and what the rest of the run leaves is unchanged |
| IndicatorView.ArmedIndicatorExpires | lib/view.js:72-73 | with `removeIndicator` as intended: once its timer has fallen due, no item of that user is left |
| IndicatorView.AddThenWait | lib/view.js:54-73 | with `removeIndicator` as intended: any indicator added and then left alone for `displayTimer` is gone |
| IndicatorView.FirstItemExpiresAsWritten | lib/view.js:72-105 | as written, an item at the front of the list whose timer is due by the target is gone once the timers due by then have fired, whichever fires first |
| IndicatorView.AddedFirst | lib/view.js:54-73 | adding for the user whose item leads the list, or to an empty list, leaves that user's item alone in front with its timer due |
| IndicatorView.AddThenWaitAsWritten | lib/view.js:54-105 | with the timers as written, an indicator added to an empty list, or re-added for the user whose item leads it, is gone once `displayTimer` has elapsed from the last add; added to an empty list, the list ends empty and the node it created is detached |
| IndicatorView.UnitTestRemovesAfterTwo | test/view.js:65-74 | with the timers as written and a 2-second timer, one indicator is shown after the add and none two seconds later (the view tests "adds an indicator to the page" and "removes an indicator after 2 seconds") |
| IndicatorView.UnitTestResetsTimer | test/view.js:76-86 | with the timers as written, re-adding the user's indicator a second after the first add re-arms its timer: one indicator is still shown two seconds after the first add, and none a second later (the view test "resets the timer if add is called again") |
| IndicatorView.AsWrittenTimerKeepsItsItem | lib/view.js:54-105 | as written, when B's timer fires before A's and A's item leads the list, A's item goes while its node stays attached, and B's node goes while its item stays |
| IndicatorView.UnitTestTracksEachTimer | test/view.js:88-101 | with the timers of lib/view.js:54-105 as written, two users' indicators added a second apart with a 2-second timer: two are shown, then one after two seconds, then none after three (the view test "tracks each timer separately") |
| IndicatorView.AddTwoTimers | lib/view.js:54-73 | the first half of that scenario: both items are in the list with both nodes attached at time 1000 |
| IndicatorView.RunTwoTimers | lib/view.js:72-105 | the second half: one node is left attached at time 2000, none at 3000 |
| IndicatorView.RemovedIsWithout | lib/view.js:95-106 | with one item per node, removing a node's item equals filtering that node out |
| IndicatorView.AsWrittenRemovesWrongIndicator | lib/view.js:96-103 | with two indicators, the second one's timer removes the first one's item and keeps its own |
| IndicatorView.AsWrittenAgreesOnFirst | lib/view.js:96-103 | for the first item the code as written and as intended agree |

## Left out

- `getElementsByTagName` is a filter on the upper-case tag name. Case folding, elements outside the form and live collections are not modelled.
- Property keys that are not array indices (`elementsWithName["length"]`, for example) are treated as naming nothing. The 2^32 limit on array indices is not modelled. Neither is the WebIDL `long` conversion of the `selectedIndex` setter, which wraps values of 2^31 and above: the model treats a large stored index as naming no option (stored indices come from `get`, so they are always in range).
- Strings are sequences of characters. UTF-16 code units and the length JavaScript reports for astral characters are not modelled.
- `form.reset()` restoring each element's default value is not modelled; only its effect on the remote key is.
- Assigning `value` is taken to store the string as given. The browser's value sanitisation is not modelled.
- A negative `displayTimer` is clamped to 0, as `setTimeout` does; a fractional one is not modelled, since numbers are integers here.
- Rendering, positioning, templates and colours (lib/view.js:75-87, 153-199) are left out. A colour is whatever the user record supplies.
- `UserCache`, the remote key's network calls and the DOM listener wiring are inputs or flags: a fetch result, a failure flag, "bound" booleans. Asynchronous callbacks complete synchronously.
- `hasClickAncestor` reads a global widget registry and walks the DOM, so it is a boolean input.
- The emitter's internals are a list of listener identities, and emitted errors are recorded in order. Error message texts are not modelled.
- The type checks on callbacks (lib/form.js:188-190, 248-250) are left out, because the model's callbacks are outcome values.
- The key-type test at lib/form.js:118 is always false, so it is not a check. A non-key fails when `opts.key.key(...)` is called.
- The stored nested map that `initialize` walks is given already flattened, in the order `_.each` visits it.
- FormController.Form.Initialize: the entries are an input. The requirement that they list the key's contents (`Lists`) stands for `key.get`, and the order `_.each` visits them in is not derived from the nested map.
- Hydrate: when an entry throws and there is an error listener, the errors emitted before the throw are not stated. Without a listener nothing is emitted, and this is stated.
- `Elapse`, `Fire`, `Expire`, `ArmedIndicatorExpires` and `AddThenWait` describe the timers with `removeIndicator` as intended. The timers as the code runs them are `ElapseAsWritten` and the members named `…AsWritten`; the rest of the model (`Destroy`, `SetEl`) does not depend on either.
- The DOM checks of test/view.js (indicator text, background colour, the container's classes) are not modelled. Its timer tests are restated by `UnitTestRemovesAfterTwo`, `UnitTestResetsTimer` and `UnitTestTracksEachTimer` as scenarios on lib/view.js as written, counting the attached indicator nodes at each point where a test counts them.
- Names holding `/` are outside the addressing lemmas, because such a key path does not decode to the same identity.
- The view's timers are per-item fields on a logical clock. Real time and the timer queue are not modelled.
- FormController.Mirror: does not state the final state of the first form's key and log. `Capture` states those.
- FormController.Mirror: for a radio it states the receiving button is checked only when that button's kind is a checkbox or radio.
- `docs/v1/static/js/form_demo.js` is page bootstrapping and is not part of this model.

## Findings

| source | as written | input that shows it | evidently intended | confidence | as-written member | corrected member |
|---|---|---|---|---|---|---|
| lib/view.js:96-103 | `_.find` returns the item, not its index. So `index < 0` is never true, and `splice(index, 1)` converts the item to 0 and removes the first item. | two indicators; the second one's timer fires and `removeIndicator(second)` removes the first user's item, keeping the second. Through the timers: A's item leads the list and A is re-armed after B is added, so B's timer fires first; A's item goes with its node left on screen, and B's node goes with its item left in the list | find the index of the item whose indicator is the given one, throw when there is none, and splice that item | not executed | IndicatorView.View.RemoveIndicatorAsWritten, IndicatorView.RemovedAsWritten, IndicatorView.AsWrittenRemovesWrongIndicator, IndicatorView.RunAsWritten, IndicatorView.View.ElapseAsWritten, IndicatorView.AsWrittenTimerKeepsItsItem | IndicatorView.View.RemoveIndicator, IndicatorView.RemovedIntended, IndicatorView.View.Elapse, IndicatorView.AddThenWait |
