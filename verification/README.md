# DOMKeeper in Dafny

DOMKeeper is a browser extension that lets a user edit the text of any element of a web page and
keeps those edits across visits; numbers can be made to "grow" by a fixed increment per second.
Two scripts make up its core:

- the **page script** (`content.js`) recognises and formats numbers, builds a CSS path for an
  edited element, marks editable leaves with outline attributes, and re-applies saved edits;
- the **coordinator** (`background.js`) owns the one state record (switches, growth settings,
  every page's saved edits keyed by normalized page address), answers the command messages of
  the popup and the page script, and pushes its settings and a page's edits to every tab.

The model is functional: immutable datatypes and pure functions; the browser's answers, the
clock and `Math.random()` are parameters.

| file | module | what it models |
|---|---|---|
| `optional.dfy` | `Optional` | `undefined`-or-value |
| `strings.dfy` | `Strings` | `trim`, `startsWith`, `includes`, `replace(/,/g, '')`, `join`, `toLowerCase` |
| `numbers.dfy` | `Numbers` | `isNumeric`, `parseNumber`, `formatNumber`, and the slice of `parseFloat` / `toLocaleString('en-US')` they use |
| `records.dfy` | `Records` | the growth settings and the saved edit records |
| `dom.dfy` | `Dom` | the document tree, `textContent`, the `isEditableElement` denylist |
| `selector.dfy` | `Selector` | `generateSelector` |
| `outlines.dfy` | `Outlines` | `updateOutlines` and the page script's `STATE_CHANGED` handler |
| `reapply.dfy` | `Reapply` | the page script's `applyChanges` |
| `urls.dfy` | `Urls` | `normalizeUrl`, `isInjectableUrl` |
| `coordinator.dfy` | `Coordinator` | `state`, `getRandomIncrement`, every command of the message listener |
| `delivery.dfy` | `Delivery` | the coordinator's `applyChanges`, `notifyTab`, `notifyTabs` |

Numbers are integers counted in thousandths (`Numbers.Milli`), matching the three fraction
digits `toLocaleString('en-US')` shows. Reading a number keeps the first three fraction digits
and drops the rest, so values with finer fractions (a saved "0.0004", say) are not represented
exactly; and unbounded integers do not round to 53 significant bits as doubles do. Both are
listed under "Left out". `parseFloat` overflow is modelled: a decimal whose integer part reaches
2^1024 - 2^970 parses to an infinity, which `isNumeric` rejects and `parseNumber` reads as 0.

Two behaviours of the code worth noting:
- deactivation (`STATE_CHANGED` with `isActive` false) strips the markers but leaves the page
  script's `isEditing` flag as it was (content.js:375-385);
- `notifyTab` retries only when the first error message does not contain the lower-case phrase
  "receiving end does not exist" (background.js:147). Chrome's own message capitalises
  "Receiving", so the missing-listener case is the one that is retried
  (`Delivery.ChromeMissingReceiverRetried`).

## Model

| member | source | states |
|---|---|---|
| Numbers.IsNumeric | content.js:71-79 | `isNumeric`: commas removed, trimmed, the `-?\d*\.?\d+` shape, and a finite `parseFloat`; its partner is `Numbers.IsNumericCharacterization` |
| Numbers.ParseNumber | content.js:86-90 | `parseNumber`: commas removed, `parseFloat`, 0 for NaN or an infinity; its partner is `Numbers.FormatParseRoundTrip` |
| Numbers.FormatNumber | content.js:81-84 | `formatNumber`: sign, integer digits grouped in threes with commas, and up to three fraction digits without trailing zeros; its partners are `Numbers.FormatParseRoundTrip` and `Numbers.FormattedIsNumeric` |
| Numbers.IsNumericCharacterization | content.js:71-79 | `isNumeric(s)` holds exactly when `s` with commas removed, then trimmed, matches `-?\d*\.?\d+` and its integer part stays below the double overflow threshold |
| Numbers.FormatParseRoundTrip | content.js:81-90 | for every value below the double overflow threshold, `parseNumber(formatNumber(v)) == v` |
| Numbers.FormattedIsNumeric | content.js:71-84 | every formatted finite value is recognised as numeric |
| Numbers.GroupUngroup | content.js:81-90 | removing the grouping commas from grouped digits gives the digits back |
| Numbers.FormatChars | content.js:81-84 | a formatted number is non-empty and uses only digits, commas, a minus and a point |
| Numbers.NatToDigits | content.js:81-84 | the decimal digits of `n` are non-empty, all digits, without a leading zero, and read back as `n` |
| Strings.TrimNoOp | content.js:73 | trimming text without surrounding whitespace changes nothing |
| Strings.RemoveCharSpec | content.js:73 | removing a character keeps exactly the other characters; a single character is dropped exactly when it is the removed one |
| Strings.RemoveCharConcat | content.js:73 | removal works piecewise over concatenation, so the kept characters stay in their order |
| Strings.ContainsFirstChar | content.js:146-149 | a non-empty substring occurs only where its first character occurs |
| Dom.Editable | content.js:130-151 | `isEditableElement`: the denylisted tags, empty trimmed text and the code markers rule an element out, in the source's order; otherwise the rendering decides; its partner is `Dom.EditableIff` |
| Dom.EditableIff | content.js:130-151 | an element is editable exactly when its tag is not denied, it is rendered, and its trimmed text is non-empty and free of "function(", "window.", "document." and "Element" |
| Dom.EditableAfterWrite | content.js:130-151 | after assigning text `s`, editability depends only on the tag, rendering and `s` |
| Dom.SetTextTwice | content.js:180 | assigning `textContent` twice equals assigning the last text |
| Dom.RemarkErase | content.js:304-332 | changing only marks leaves text, structure and attributes as they were |
| Dom.RemarkAt | content.js:304-332 | after remarking, the node at every path is the remarked node at that path |
| Selector.GenerateSelector | content.js:96-97 | a selector exists exactly for element paths; non-elements give `null` |
| Selector.WalkSpec | content.js:99-127 | the segments run from the nearest ancestor-or-self where the walk stops (unique id, no parent, or parent is `body`) down to the element; that one gives its head, every other its plain segment |
| Selector.WalkStaysInsideBody | content.js:124-125 | for an element inside `body`, the walk ends strictly inside `body`, so `body` never contributes a segment |
| Selector.NthOfTypeSpec | content.js:113-121 | the `:nth-of-type(i)` suffix appears exactly when the parent has more than one child of the tag, and `i` is the 1-based position among them; the suffix is then exactly `:nth-of-type(i)` |
| Selector.StableClassesConcat | content.js:107-110 | the class filter works piecewise over concatenation, so kept classes stay in their order and duplicates are kept |
| Selector.StableClassesSpec | content.js:107-110 | exactly the classes not containing "hover" or "active" are kept |
| Outlines.UpdateOutlines | content.js:304-332 | `updateOutlines`: nothing when inactive and unforced; otherwise every element's markers are recomputed from that element alone; its partners are `Outlines.UpdateOutlinesActive` and `Outlines.UpdateOutlinesErase` |
| Outlines.UpdateOutlinesActive | content.js:304-332 | on an active page an element ends up `data-editable` exactly when it was and is being edited, or is an editable leaf and outlines are shown; `data-numeric` likewise with a numeric text and growth on |
| Outlines.OnlyLeavesDecorated | content.js:317-318 | an element with an element child gains no marker |
| Outlines.EditingKeepsMarks | content.js:307-313 | an element being edited keeps all its markers |
| Outlines.ForcedInactiveClears | content.js:305-315 | a forced pass on an inactive page only clears markers of elements not being edited |
| Outlines.InactiveUnforcedNoOp | content.js:305 | an unforced pass on an inactive page changes nothing |
| Outlines.UpdateOutlinesErase | content.js:304-332 | the outline pass changes only marks |
| Outlines.OnStateChanged | content.js:370-373 | the handler adopts the sent flags, the default growth settings when none are sent, and keeps the edit flag |
| Outlines.DeactivationClears | content.js:375-385 | deactivation forgets the page's changes, leaves no element with any marker, switches `contentEditable` off where a marker was, and changes nothing but marks |
| Outlines.ActivationDecorates | content.js:370-388 | activation keeps the page's changes and only changes marks; an element ends up `data-editable` exactly when it was and is being edited, or is an editable leaf and the sent flags show outlines; `data-numeric` likewise with a numeric text and the sent (or default) growth on |
| Reapply.ApplyChanges | content.js:166-219 | the page script's `applyChanges`: the two guards, the text entries, then the number entries when growth is on, and whether any element was written; every element is kept; its partner is the loop `Reapply.ApplyChangesInOrder` |
| Reapply.SkippedIsNoOp | content.js:166-167 | with both maps absent, or an edit in progress and no force, nothing is written and false is returned |
| Reapply.OnlyEditableWritten | content.js:175-202 | only entries resolving to an editable element are written, with the entry's text or, for a non-zero base with growth on, its formatted projection; anything else keeps its element |
| Reapply.ZeroBaseSkipped | content.js:195-196 | a number entry whose base reads as 0 leaves its element alone, even with growth on |
| Reapply.ValueWritten | content.js:189-201 | a growing number shows `base + increment * floor((now - timestamp) / 1000)`, formatted by `formatNumber`, and the pass reports a change |
| Reapply.NumberWinsOverText | content.js:175-208 | for a selector in both maps, the number is what ends up displayed |
| Reapply.GrowthOffIgnoresValues | content.js:189 | with growth off, only text entries are written and the result reports exactly whether one was |
| Reapply.NoReportNoChange | content.js:166-219 | a pass that reports no update changed nothing |
| Reapply.EqualWriteStillReported | content.js:180-181 | a write is reported even when the text was already equal |
| Reapply.ApplyChangesIdempotent | content.js:166-219 | a second pass with the same time leaves the page as the first left it |
| Reapply.ProjectedLinear | content.js:198-199 | `k` more seconds add `k` increments |
| Reapply.ProjectedMonotone | content.js:198-199 | with a non-negative increment the shown value never decreases |
| Reapply.ProjectedAtSave | content.js:198-199 | within the save's own second the base is shown |
| Reapply.FormattedShowsText | content.js:143-151 | a formatted number is text an editable element may show |
| Reapply.ApplyChangesInOrder | content.js:166-219 | the loop over text entries, then over number entries, computes the pass and reports whether any element was written |
| Urls.NormalizeUrl | background.js:68-75 | `normalizeUrl`: `origin + pathname` under a scheme, host, path, query and fragment split; the address itself where it cannot be parsed |
| Urls.IsInjectable | background.js:78-84 | `isInjectableUrl`: the address starts with `http://` or `https://` |
| Urls.NormalizedHasNoQuery | background.js:68-75 | a page key is the address up to its query or fragment, "/" standing for an empty path: it keeps origin and path, and has no query or fragment |
| Urls.PlainAddressIsKey | background.js:68-75 | an address with a path and no query or fragment is its own key |
| Urls.NormalizeIdempotent | background.js:68-75 | normalizing a key gives the key back |
| Urls.QueryAndFragmentIgnored | background.js:68-75 | addresses differing only in query or fragment share a key |
| Urls.UnparsableUnchanged | background.js:72-74 | an address that cannot be parsed is its own key |
| Urls.NormalizeKeepsInjectable | background.js:68-84 | normalizing never changes whether a page is injectable |
| Coordinator.RandomIncrement | background.js:14-18 | `getRandomIncrement`: `floor(r * (base + 1)) + base/2` for the draw `r`, in thousandths; its partners are `Coordinator.RandomIncrementBounds` and `Coordinator.RandomIncrementReaches` |
| Coordinator.RandomIncrementBounds | background.js:14-18 | for a base `b >= 0` the random increment lies in [b/2, 3b/2], in half units |
| Coordinator.RandomIncrementReaches | background.js:14-18 | every value `b/2 + k`, `0 <= k <= b`, is produced by some draw |
| Coordinator.Handle | background.js:191-347 | the listener's command switch: each command's guard, state change, response and whether every tab is notified; its partners are the command lemmas below and `Coordinator.HandlePreservesInv` |
| Coordinator.HandlePreservesInv | background.js:191-347 | every command keeps `randomizer ⇒ enabled`, `(showOutlines ∨ enabled) ⇒ isActive`, and no saved edits while inactive |
| Coordinator.ReadOnlyCommands | background.js:195-337 | PING, GET_CHANGES, GET_STATE and unknown types change nothing and broadcast nothing |
| Coordinator.ToggleExtensionSpec | background.js:239-247 | TOGGLE_EXTENSION takes the requested position or the opposite; off also turns off outlines, growth and randomizer and empties both maps; the increment is kept |
| Coordinator.InactiveRefuses | background.js:259-317 | outline, growth, randomizer, increment and save commands change nothing and fail while inactive |
| Coordinator.GrowthOffRefuses | background.js:295-317 | the randomizer and increment commands fail while growth is off |
| Coordinator.ToggleValueIncreaseSpec | background.js:274-282 | growth flips, turning it off turns off the randomizer, a non-zero increment replaces the configured one |
| Coordinator.TogglesBroadcastIffSaved | background.js:248-308 | the toggles broadcast and answer with the settings exactly when saving worked; otherwise `success: false` |
| Coordinator.NoRollback | background.js:248-308 | the new state does not depend on whether saving worked |
| Coordinator.UpdateIncrementSpec | background.js:310-316 | UPDATE_INCREMENT sets the increment, succeeds and broadcasts whatever saving gave |
| Coordinator.SaveChangesWritesOneEntry | background.js:200-226 | SAVE_CHANGES writes exactly the caller's page and selector, as a number with the increment of the moment or as text; all other entries stay |
| Coordinator.SaveChangesRefused | background.js:200-228 | SAVE_CHANGES without a page address or while inactive changes nothing and fails |
| Coordinator.SavedIncrementBounds | background.js:202-204 | a saved number's increment is the configured one, or a random one within [b/2, 3b/2] |
| Coordinator.ClearChangesSpec | background.js:326-333 | CLEAR_CHANGES forgets the caller's page in both maps and nothing else |
| Coordinator.GetChangesSpec | background.js:230-237 | GET_CHANGES answers with the current switches and growth settings and with the caller's text and number entries: `{}` without a page address, `undefined` for a page with none |
| Coordinator.GetChangesIsPageScoped | background.js:230-237 | GET_CHANGES depends on no page but the caller's |
| Coordinator.PageKeyIgnoresQuery | background.js:192 | every visit of one page acts on the same key |
| Delivery.ApplyChanges | background.js:106-128 | the coordinator's `applyChanges`: the guards, one `APPLY_CHANGES` with the page's entries, and success exactly when it was delivered; its partner is `Delivery.ApplyChangesGuards` |
| Delivery.NotifyTab | background.js:131-169 | `notifyTab`: `STATE_CHANGED`, then the entries on success, or an injection and one retry unless the error names a missing receiver; its partners are `Delivery.NotifyTabBounded`, `Delivery.NotifyTabOk` and `Delivery.NotifyTabMessages` |
| Delivery.ApplyChangesGuards | background.js:106-128 | `applyChanges` sends nothing and fails when inactive, not injectable, or the page has no entries; otherwise it sends the page's entries and succeeds exactly when delivered |
| Delivery.NotInjectableUntouched | background.js:78-84 | a tab without an http or https address gets no attempt and reports failure |
| Delivery.NotifyTabBounded | background.js:131-169 | STATE_CHANGED goes out at most twice, twice exactly after a failure lacking the phrase followed by a successful injection |
| Delivery.NotifyTabOk | background.js:131-169 | `notifyTab` succeeds exactly when a STATE_CHANGED was delivered, at once or on the retry |
| Delivery.NotifyTabMessages | background.js:131-169 | every message carries the current settings or the page's entries; the entries go out only when active, after a delivered STATE_CHANGED, once |
| Delivery.ChromeMissingReceiverRetried | background.js:147-161 | Chrome's missing-listener error leads to an injection and a second STATE_CHANGED |
| Delivery.NotifyTabs | background.js:172-188 | every tab gets exactly `notifyTab` of its own address and answers, and a tab without an http or https address gets nothing |
| Delivery.NotifyTabsSpec | background.js:172-188 | each tab gets at most two STATE_CHANGED, and its result depends only on its own address and answers |

## Left out

- Browser APIs (`chrome.storage`, `tabs.query`, `tabs.sendMessage`, `scripting.executeScript`, runtime messaging): their outcomes are parameters (`Env.saveOk`, `Delivery.Answers`, the tab list).
- `loadState`, `saveState` and `onInstalled`: persistence is reduced to the success flag of the save.
- The listener's `catch` branch (`{ error: e.message }`): no modelled command throws.
- Asynchronous interleaving: `Promise.all`, `Promise.allSettled` and the `MutationObserver`; one pass is a sequential fold, and observer convergence is not modelled.
- The page script's `APPLY_CHANGES` handler, `initialize`, `showPage` and the hide style: plumbing around the modelled `applyChanges` and `updateOutlines`.
- `makeElementEditable` and its click, input, blur and keydown listeners: editing UI.
- `popup.js`: settings-panel UI.
- Layout checks of `isEditableElement` (computed style, bounding box, `offsetParent`): one `rendered` flag per element.
- Real CSS selector matching: the re-apply pass works on a flat map from selector to the element `querySelector` returns, so two selectors never alias one element.
- `Reapply.ApplyChangesIdempotent`: holds on the flat page, where no resolved element contains another. In the document a write to a descendant can make an ancestor editable on the next pass (its text loses a code marker), so a second pass, or another entry order, can end differently; `Reapply.ApplyChangesInOrder` is order-independent for the same reason.
- `Numbers.ParseNumber`: keeps only the first three fraction digits, where `parseFloat` keeps them all; exponents and `-0` are not read.
- `Reapply.ApplyChanges`: a base below 0.001 but not zero, such as "0.0004", reads as 0 here and its entry is skipped; the source finds it non-zero, writes the formatted projection and reports an update.
- `toLocaleString` rounding of values with more than three fraction digits: model values never have any.
- Double rounding to 53 significant bits: integers are exact here, so a base or a projected value above 2^53 (9007199254740993, say) keeps digits that JavaScript would round away.
- `Numbers.FormatParseRoundTrip`: stated only for values below the double overflow threshold; a growing number that overflows to Infinity is shown as "0" by the source and is not modelled.
- Fractional or `NaN` increments: increments are whole units in the settings and thousandths once saved.
- `Coordinator.RandomIncrementBounds`: the random draw is a rational in [0, 1) rather than a double, and the floating rounding of `Math.floor(r * (max - min + 1))` is exact here.
- `Math.random()` and `Date.now()`: parameters (`Env.draw`, `Env.now`).
- URL parsing beyond a scheme://host/path?query#fragment split: only `http://` and `https://` are parsed; case, ports, user info, percent-encoding and backslashes are not normalized.
- Ids that are not plain CSS identifiers are treated as ordinary ids: neither those for which `querySelectorAll('#' + id)` throws nor those like `a.b` that it reads as a compound selector.
- Class lists are sequences of strings: duplicate, empty or blank tokens, which `classList` never holds, are not ruled out, and a duplicate class would appear twice in a segment.
- The navigation and tab-update listeners (`webNavigation.onCommitted`, `webNavigation.onDOMContentLoaded`, `tabs.onUpdated`): they only call `injectContentScript` and `notifyTab` for active, injectable main frames; `notifyTab` itself is modelled.
- `toLowerCase` of tag names covers ASCII letters only.
