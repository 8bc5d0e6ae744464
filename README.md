# FreeJumper context-menu search: a Dafny model

FreeJumper is a browser extension. It adds one context-menu entry per user-defined URL template
("search Google for the selection", "search Baidu for the selection", ...). Clicking an entry opens
the template's URL, with every `{text}` marker replaced by the URI-encoded selected text. This
project models two parts of it and proves properties about them.

- **The background page** (`background.js`).
  - `MenuSync.Synchronizer` models `createContextMenus`. The busy flag `isUpdatingMenus` is `busy`.
    The single-slot buffer `pendingUpdate` is `pending`. The per-pass counter is `createdCount`.
    The create calls issued since the last `removeAll` are `issued`. The lists handed to
    `setTimeout` and not yet fired are `scheduled`.
  - Each asynchronous continuation is a method the environment calls: `Request`,
    `OnRemoveAllDone`, `OnParentCreated`, `OnChildCreated` and `TimerFires`. A create callback
    reports `Ok`, `DuplicateId` or `Other`.
  - `Templates.ValidTemplates` is the valid-template filter. `MenuSync.MenuFor` is the menu a
    completed pass builds.
  - `ClickDispatch.ResolveClick` is the `onClicked` listener. It strips the menu-id prefix, trims
    the selection, looks the template up, and replaces every `{text}` with the encoded selection.
- **The options page** (`options.js`).
  - `Options.Editor` holds the global `templates` list and the `nextId` counter. Its methods are
    the editing operations: load, add, move, delete, field update, drag-drop reorder and reset.
  - The save validation is `Options.SaveErrors` and `Options.SaveDecision`.
  - The live preview is `Options.PreviewOf`.

The JavaScript built-ins the code relies on are defined concretely in `JsText` and `UriComponent`.
This way every property is proved about a definite behaviour.

- `trim` strips the ECMAScript white-space and line-terminator set.
- `includes` is `Contains`.
- `replace(/{text}/g, r)` is `ReplaceAll`.
- `parseInt(s)` without a radix is `ParseInt`. It skips leading white space and reads an optional
  sign, an optional `0x`, then the longest digit run. NaN is `None`.
- `String(n)` is `IntToString`.
- `encodeURIComponent` is `Encode`: UTF-8 percent-encoding of every character outside
  `A-Z a-z 0-9 - _ . ! ~ * ' ( )`. Its output contains no `{`, `}` or `$`
  (`UriComponent.EncodedHasNoSpecials`). So inserting it with `replace` is a plain literal
  replacement; no `$` pattern can be triggered.

Strings are sequences of Unicode scalar values, and i18n messages are tagged values:

- a menu title is `Name(name)`, `DefaultName(position)` or `ContextMenuParent`;
- an error is `ErrEmptyUrl(position)`, `ErrNoPlaceholder(position)`, `ErrNoTemplates` or
  `ErrMinTemplates`.

A missing `name` or `url` field behaves exactly like `""` everywhere it is read. So it is modelled
as `""`.

### Where the code differs from its design

The design promises last-write-wins updates of the menu. The code keeps that promise only
partly, and the model follows the code.

- **Parent retry race.** On a duplicate parent id, the flag is cleared before the 50 ms retry
  (background.js:64-65). A request arriving during that wait starts its own pass. The retry then
  fires into that pass's pending slot, carrying the older list. `MenuSync.RetryRace` proves that
  the pass then builds the menu from the older list. A duplicate parent id also leaves the
  pending slot as it is (background.js:62-66). So a list already pending before the duplicate
  is taken by the next pass, and a request arriving during the wait loses even before the
  retry fires. `MenuSync.PendingSurvivesRetry` proves this.
- **Deferred rebuild race.** A list that arrived during a pass is scheduled 100 ms after the
  pass ends, and the flag is cleared at once (background.js:94-100). A request arriving during
  those 100 ms starts its own pass. The timer then fires into that pass's pending slot, so the
  pass builds from the list that was deferred, not from the latest one. `MenuSync.DeferredRace`
  proves this.
- **Where last-write-wins is proved.** `MenuSync.SettleAfterRequests` covers requests that all
  arrive before the `removeAll` callback. The parent create may report any outcome except a
  duplicate id, and each child create may report any outcome. `MenuSync.SettleAfterRetry`
  covers the duplicate parent id: the retry, with nothing else arriving, settles on the
  same list. A request arriving during the create callbacks is deferred, then applied:
  `MenuSync.SettleAfterDeferred` proves the next pass settles on it. Only a request arriving
  while a timer waits meets one of the two races above.
- **Child duplicates.** A child whose create reports a duplicate id is counted as done and is not
  retried (background.js:83-92).
- **Dead code.** The branch at background.js:107-109 cannot run. It is reached only with a
  non-empty `validTemplates`, so `templatesToUse` is non-empty too. It is not modelled as a branch.

## Model

| member | source | states |
|---|---|---|
| Templates.DefaultTemplates | background.js:2-16 | the seeded list has exactly two templates, with ids "1" and "2" |
| Templates.DefaultTemplatesValid | background.js:2-16 | both seeded templates pass the validity filter, so both get a menu entry |
| Templates.IsValidTemplate | background.js:47-49 | the filter test: a non-empty url that does not trim to nothing and contains `{text}`; `ValidIffContainsMarker` reduces it to containing the marker |
| Templates.ValidTemplates | background.js:46-49 | `filter` with that test; `ValidTemplatesSpec` states which entries it keeps and in what order |
| Templates.ValidIffContainsMarker | background.js:47-49 | a url containing `{text}` is never blank, so validity is exactly "the url contains `{text}`" |
| Templates.ValidTemplatesSpec | background.js:46-49 | the valid list is the valid entries of the list in their original order: its k-th entry is the entry at the k-th valid position, and the positions are all indices holding a valid entry, ascending |
| Templates.ValidTemplatesAllValid | background.js:46-49 | a list whose entries are all valid is kept whole and in order |
| Templates.ValidTemplatesNoneValid | background.js:46-49 | a list without a valid entry gives an empty valid list |
| Templates.NoMarkerNeverValid | background.js:47-49 | a template whose url lacks `{text}` never reaches the menu, whatever its name |
| Templates.TitleFor | background.js:75-79 | the title is the template's name exactly when the name is non-empty, else the positional default |
| Templates.FirstIndexOf | background.js:161 | `find` by id: the result holds the id and no earlier entry does; None means no entry has the id |
| Templates.FirstIndexOfDistinct | background.js:161 | with distinct ids, `find` by a template's own id returns that template's position |
| MenuSync.ChildItems | background.js:74-80 | one child per valid template, in list order, with the prefixed id, the parent as parent, and `TitleFor` at its 1-based position; `SingleUnnamedTemplate` and `MenuIdsUnique` state its content and distinct ids |
| MenuSync.MenuFor | background.js:51-80 | the menu a completed pass creates: nothing for no valid template, else the parent followed by `ChildItems`; `SettleAfterRequests` shows it is what a pass issues |
| MenuSync.MenuIdFor | background.js:77 | a menu id is `freejumper-` followed by the template id |
| MenuSync.MenuIdInjective | background.js:77 | different template ids give different menu ids |
| MenuSync.MenuIdsUnique | background.js:53-80 | with distinct template ids none of which is "parent", all ids of a built menu are distinct |
| MenuSync.SingleUnnamedTemplate | background.js:74-80 | a list holding one unnamed template whose url contains `{text}` gives the parent and one child `freejumper-1` titled with the default for position 1 |
| MenuSync.Synchronizer.constructor | background.js:18-19 | at load the flag is clear, nothing is pending, no menu call is issued and no timer is scheduled |
| MenuSync.Synchronizer.Request | background.js:22-32 | while the flag is set, only the pending slot is overwritten with the new list and no menu call is made; otherwise the flag is set and a pass starts with the given list |
| MenuSync.Synchronizer.OnRemoveAllDone | background.js:32-56 | the effective list is the pending slot if set, else the pass's argument, and the slot is cleared; the valid list is its filter; with no valid template the flag is cleared and nothing is created, otherwise only the parent is created |
| MenuSync.Synchronizer.OnParentCreated | background.js:57-80 | a duplicate parent id clears the flag, creates no child and schedules a retry with the same effective list; any other outcome resets the counter and creates one child per valid template in order |
| MenuSync.Synchronizer.OnChildCreated | background.js:81-103 | every child callback adds one to the counter whatever its outcome; the flag is cleared exactly when the counter reaches the number of valid templates, and a set pending slot is then cleared and scheduled |
| MenuSync.Synchronizer.TimerFires | background.js:65-100 | a fired timer (the 50 ms parent retry of line 65 or the 100 ms rebuild of line 100) is removed from the schedule and calls `createContextMenus` with its list |
| MenuSync.SettleAfterRequests | background.js:22-113 | back-to-back requests settle on the menu of the last request's list (or the first's when the last passes none), with nothing pending or scheduled, whatever the child outcomes and any parent outcome but a duplicate id |
| MenuSync.SettleAfterRetry | background.js:57-103 | after a duplicate parent id, the retry of the same list, with nothing else arriving, settles on that list's menu whatever the later outcomes |
| MenuSync.SettlePass | background.js:32-103 | one pass from the `removeAll` callback, with nothing pending, scheduled or arriving, settles on the menu of its argument's valid templates, whatever the child outcomes and any parent outcome but a duplicate id |
| MenuSync.SettleAfterDeferred | background.js:94-100 | a request arriving during the child creates is deferred, scheduled when the pass ends, and the next pass settles on its menu |
| MenuSync.PendingSurvivesRetry | background.js:62-66 | a duplicate parent id leaves the pending list in place, so the next pass takes it over a request arriving during the retry wait |
| MenuSync.RetryRace | background.js:62-66 | when a request arrives during a parent retry, the resulting pass builds from the older list |
| MenuSync.DeferredRace | background.js:93-100 | when a request arrives while a deferred rebuild is scheduled, the rebuild fires into the new pass and that pass builds from the deferred, older list |
| ClickDispatch.ResolveClick | background.js:149-175 | the url a click opens, if any; `BlankSelectionOpensNothing`, `UnknownTemplateOpensNothing`, `EmptyUrlOpensNothing` and `ClickOpens` cover each of its outcomes |
| ClickDispatch.TemplateIdOf | background.js:150-151 | only ids that start with the prefix and are not the parent's are answered, and the answer is the id whose menu id was clicked |
| ClickDispatch.MenuIdRoundTrip | background.js:150-151 | stripping the prefix from a template's menu id gives the template id back; the entry of a template with id "parent" is ignored |
| ClickDispatch.ForeignIdsIgnored | background.js:150 | clicks on the parent or on ids outside the prefix are ignored |
| ClickDispatch.BlankSelectionOpensNothing | background.js:152-156 | a selection that trims to nothing opens nothing |
| ClickDispatch.UnknownTemplateOpensNothing | background.js:159-163 | a template id not in the stored list (or the defaults) opens nothing |
| ClickDispatch.EmptyUrlOpensNothing | background.js:161-163 | the first template with the id having an empty url opens nothing |
| ClickDispatch.ClickOpens | background.js:150-172 | otherwise the first template with the id is opened with every `{text}` replaced by the encoded trimmed selection |
| ClickDispatch.ClickOnBuiltEntry | background.js:74-80 | clicking the k-th built child entry, with distinct ids, opens the k-th valid template's url with the marker replaced |
| ClickDispatch.CafeClick | background.js:150-172 | selecting "café" on `https://x.com/s?q={text}` opens `https://x.com/s?q=caf%C3%A9` |
| ClickDispatch.CafeSubstitution | background.js:165 | the marker in that url is replaced by the encoded text and the rest is kept |
| JsText.Trim | background.js:152 | `trim()`: `TrimStart` then `TrimEnd`; `BlankIff` states when the result is empty |
| JsText.TrimStart | background.js:152 | leading white space is removed: the result is a suffix, the dropped characters are white space, and the result does not start with white space |
| JsText.TrimEnd | background.js:152 | trailing white space is removed: the result is a prefix, the dropped characters are white space, and the result does not end with white space |
| JsText.BlankIff | background.js:48 | a string trims to nothing exactly when every character is white space |
| JsText.Contains | background.js:48 | `includes`: some position where the pattern occurs; `ContainsNonBlankIsNotBlank` relates it to trimming |
| JsText.ContainsNonBlankIsNotBlank | background.js:48 | a string containing a pattern that starts with a non-white-space character is not blank |
| JsText.ReplaceAll | background.js:165 | a global literal `replace`, scanning from the left; the four lemmas below characterise it |
| JsText.ReplaceAllAbsent | background.js:165 | a url without the marker is left unchanged |
| JsText.ReplaceAllFirst | background.js:165 | the text before the first occurrence is kept, that occurrence is replaced, and the rest is processed the same way |
| JsText.ReplaceAllSkip | background.js:165 | a prefix that cannot start an occurrence is kept as it is |
| JsText.ReplaceAllPattern | background.js:165 | a string that is exactly the marker becomes the replacement |
| JsText.ParseInt | options.js:61 | `parseInt` without a radix: leading white space, a sign, then a decimal or `0x` hexadecimal digit run; `ParseIntOfIntToString` and the id-number lemmas state its values |
| JsText.IntToString | options.js:337 | `String(n)`; `ParseIntOfIntToString` shows `parseInt` reads it back |
| JsText.ParseIntOfIntToString | options.js:61 | `parseInt(String(n))` is n for every integer n |
| JsText.NatToString | options.js:337 | the decimal form of a number is a non-empty run of digits |
| UriComponent.Encode | background.js:165 | `encodeURIComponent`; `EncodedChars`, `EncodedHasNoSpecials`, `EncodeAppend`, `EncodeUnreserved` and `EncodeCafe` state its properties |
| UriComponent.EncodedChars | background.js:165 | the encoding is at least as long as its input and uses only unreserved characters, `%` and hex digits |
| UriComponent.EncodedHasNoSpecials | background.js:165 | the encoding contains no `{`, `}` or `$` |
| UriComponent.EncodeAppend | background.js:165 | the encoding of a concatenation is the concatenation of the encodings |
| UriComponent.EncodeUnreserved | background.js:165 | a string of unreserved characters is its own encoding |
| UriComponent.EncodeCafe | background.js:165 | "café" encodes to "caf%C3%A9" |
| Options.IdNumber | options.js:61 | `parseInt(t.id) \|\| 0`; the three lemmas below give its value for issued, padded and non-numeric ids |
| Options.IdNumberOfString | options.js:61 | an id issued as `String(n)` reads back as n |
| Options.IdNumberOfPaddedId | options.js:61 | an id like " 12px" counts by its leading number, 12 |
| Options.IdNumberOfWordId | options.js:61 | an id with no leading digit counts as 0, as `NaN \|\| 0` does |
| Options.MaxIdNumber | options.js:61 | the recovered maximum is at least every id number of the list and is one of them |
| Options.IssuedIdIsFresh | options.js:335-341 | when every id number is below `nextId`, the id `String(nextId)` differs from every id in the list |
| Options.Moved | options.js:312-320 | the swap of `moveTemplate`; `MovedSpec` and `MoveDownThenUp` characterise it |
| Options.MovedSpec | options.js:312-320 | a move out of range leaves the list unchanged; otherwise exactly the two positions are exchanged, every other entry stays, and the result is a permutation of the same length |
| Options.MoveDownThenUp | options.js:312-320 | moving entry i down and then entry i+1 up restores the list |
| Options.WithoutId | options.js:396 | the delete `filter`; `WithoutIdCounts` with `WithoutIdKeepsOrder` pin it down |
| Options.WithoutIdCounts | options.js:396 | every template with another id stays exactly as often as it occurs in the list, and no template with the id stays |
| Options.WithoutIdMembers | options.js:396 | after a delete, the remaining entries are exactly the entries with another id |
| Options.WithoutIdKeepsOrder | options.js:396 | the remaining entries keep their relative order |
| Options.WithoutUniqueId | options.js:396 | with distinct ids, deleting the id at position i removes exactly that entry |
| Options.WithoutAbsentId | options.js:396 | deleting an id no template has changes nothing |
| Options.Updated | options.js:376-386 | `updateTemplate` on the list; `UpdatedSpec` characterises it |
| Options.UpdatedSpec | options.js:376-386 | ids and length are kept; an unknown id changes nothing; otherwise only the first template with the id changes, getting the trimmed value in the name or the url field and keeping the other field |
| Options.FindById | options.js:267-270 | at most one template, which has the id and is in the list; nothing exactly when no template has the id |
| Options.Reordered | options.js:265-274 | the rebuild of `handleDrop`; `ReorderedMembers`, `ReorderedAppend`, `ReorderedPermutes` and `ReorderedIsPermutation` characterise it |
| Options.ReorderedMembers | options.js:265-274 | every entry of the rebuilt list is a template of the old list |
| Options.ReorderedAppend | options.js:265-271 | rebuilding by two id runs one after the other gives the two rebuilt runs one after the other |
| Options.ReorderedPermutes | options.js:265-271 | rebuilding by a rearranged id order gives a rearrangement of the rebuilt list |
| Options.ReorderedIsPermutation | options.js:260-274 | when the order lists each id of a list with distinct ids exactly once, the rebuilt list is a permutation of the list with the same length |
| Options.SaveErrors | options.js:437-444 | the messages of the validation pass; `SaveErrorsSpec` characterises them |
| Options.SaveDecision | options.js:446-465 | what `saveConfig` does with the list; `SaveDecisionSpec` characterises it |
| Options.SaveErrorsSpec | options.js:437-444 | there is one error per invalid template, in index order, tagged with its 1-based position: the empty-url error for a blank url, else the no-placeholder error |
| Options.SaveDecisionSpec | options.js:446-465 | the list is written exactly when it is non-empty and every template is valid, and then it is written whole and in order; an empty list is refused with the no-templates error |
| Options.ValidateAll | options.js:437-444 | the `forEach` pass pushes exactly the save errors of the list |
| Options.ValidateOne | options.js:439-443 | one callback pushes the message of its template, if any |
| Options.PreviewText | options.js:497-499 | the preview text is never empty |
| Options.PreviewEntryAt | options.js:508-517 | the preview line of one template, none for a blank url; `PreviewShowsUnmarkedUrl` covers urls without the marker |
| Options.PreviewOf | options.js:502-520 | the preview: empty for no templates, else the lines; `PreviewSpec` characterises them |
| Options.PreviewSpec | options.js:505-520 | there is one preview line per template with a non-blank url, in order, including urls without `{text}`; each line has the name or the default for its full-list position, and the url with every marker replaced by the encoded preview text |
| Options.PreviewShowsUnmarkedUrl | options.js:510 | a non-blank url without the marker is shown unchanged |
| Options.Editor.constructor | options.js:9-10 | the page starts with no templates and `nextId` 1 |
| Options.Editor.LoadConfig | options.js:55-71 | a non-empty stored list is adopted unchanged, with `nextId` one more than its largest id number; otherwise the defaults are used with `nextId` 3; either way every id number is below `nextId` |
| Options.Editor.AddTemplate | options.js:335-341 | exactly one blank template is appended, with the fresh id `String(nextId)`; `nextId` goes up by one; earlier entries are unchanged |
| Options.Editor.AddTemplateFromExample | options.js:356-362 | as `addTemplate`, with the given name and url |
| Options.Editor.MoveTemplate | options.js:312-320 | the list becomes the moved list and `nextId` is unchanged |
| Options.Editor.DeleteTemplate | options.js:389-400 | with at most one template, the delete is refused with the minimum-templates error and nothing changes; otherwise, if confirmed, every template with the id is removed |
| Options.Editor.UpdateTemplate | options.js:376-386 | the list becomes the updated list and `nextId` is unchanged |
| Options.Editor.HandleDrop | options.js:251-274 | during a drag, the list is rebuilt from the DOM order of ids, taking the first template found for each id and skipping ids not found; otherwise nothing changes |
| Options.Editor.SaveConfig | options.js:435-465 | the outcome is the save decision for the current list |
| Options.Editor.ResetConfig | options.js:479-484 | when confirmed, the defaults with `nextId` 3; otherwise nothing changes |

## Left out

- Storage is left out as I/O. This covers `chrome.storage` reads and writes, the `storage.onChanged`
  wiring, `initializeMenus`, `autoSaveConfig` and its read-back order check. The stored list is a
  parameter (`stored`, `Request`'s argument).
- The native `chrome.contextMenus` behaviour is left out. Only the callback outcomes
  `Ok | DuplicateId | Other` are modelled. A `removeAll` error is only logged, so it is not
  modelled either.
- `setTimeout` delays are left out. Each timer is an entry of `scheduled`, fired by `TimerFires`
  in any order the environment picks.
- `chrome.tabs.create` and the legacy `onMessage` `openUrl` pass-through are foreign calls. The
  model stops at the URL that would be opened.
- The following DOM code is left out:
  - rendering and `escapeHtml`;
  - status messages;
  - scrolling and focus;
  - the drag geometry of `getDragAfterElement`, which uses floating point.

  `HandleDrop` takes the DOM order of ids as a parameter, and the `draggedElement` test as a
  boolean.
- `confirm()` is a boolean parameter. `chrome.i18n.getUILanguage()` is reduced to
  `Locale.isChinese`. The localized default names are fields of `Locale`.
- popup.js is not part of this model; it only renders the stored list. i18n.js is not part of
  this model either.
- `null` entries in a stored list (the `t &&` test at background.js:47) are not modelled, since a
  list entry is always a template. A missing `selectionText` is not modelled either: the code
  would throw on it.
- Lone UTF-16 surrogates, on which `encodeURIComponent` throws, cannot occur, because Dafny
  characters are Unicode scalar values.
- Double-precision limits of JavaScript numbers are not modelled. For ids above 2^53,
  `parseInt` and `nextId++` would round; the model uses unbounded integers.
- Object sharing is not modelled. `handleDrop` pushes the objects themselves. With duplicate ids
  one object can appear twice, and a later field update would show in both places. The model
  works on values.
- The branch at background.js:107-109 cannot run, and is not modelled.
- Options.Editor.MoveTemplate: requires `index` to be a position of the list. The move buttons
  are rendered with the indices of the list, so the source never calls it otherwise.
- Options.Reordered and Options.WithoutId: their own contracts state only length bounds. What
  they compute is stated by the lemmas listed in the table.
