# Help center page: a verified model of help-center.js

help-center.js is the browser script behind the help-center page. It has two
controllers.

- **FAQ controller.** Category buttons switch which FAQ group is shown. A click
  on a question opens its answer and closes every other one (an accordion).
- **Search controller.** The search lower-cases and trims the query. It
  highlights and opens every FAQ item whose question or answer contains the
  query, clicking the category button of a hidden group that holds a match. It
  highlights every matching help card. It shows a single "no results" notice
  when nothing matched. Typing a value whose JavaScript `length` (UTF-16 code
  units) is two or less clears the highlights.

The model separates what the markup fixes from what the handlers change.

- A `Layout` holds the fixed part: the category buttons and their keys, the
  FAQ groups and their ids, the FAQ items with their container and texts, and
  the help cards with their texts.
- A `Page` holds the changing part: the `active` flag of each button, the
  `hidden` flag of each group, the `active` and `search-highlight` flags of each
  item, the `search-highlight` flag of each card, and the number of notices in
  the document.

The project has four files.

- `text.dfy` (module `Text`): lower-casing, trimming and substring
  containment. Each comes with a lemma stating what it computes, and
  containment is tied to a reference definition.
- `model.dfy` (module `HelpCenterModel`): every handler as a transition
  function on `Page` given the `Layout`.
- `properties.dfy` (module `HelpCenterProperties`): the guarantees of those
  functions as lemmas.
- `page.dfy` (module `HelpCenter`): class `HelpCenterPage`, whose fields are the
  page flags. Its methods run the handlers' `forEach` loops one element at a
  time. Each method is proved to end in exactly the state its transition
  function gives; `HighlightHelpCard`, which only sets one card's flag, states
  that new state directly.

`highlightFAQItem` carries the comment "Show the FAQ category that contains
this item" (help-center.js:149). Read as a promise about the whole search, that
would mean every matching item ends in a visible group. The code does not
guarantee this when a later match lies in a different hidden group. The later
match clicks its own category button, and that click hides the group the
earlier match revealed. These members state what the code actually does:

- `HelpCenterProperties.ScanClickHidesOtherGroups` (one step)
- `HelpCenterProperties.SearchCanHideEarlierMatchGroup` (a whole search in
  which the first match's group ends hidden)
- `HelpCenterProperties.SearchShowsLastRevealedGroup` (the group of the last
  match that clicks a button stays visible)

A second point: a search can leave several items open at once
(`HelpCenterProperties.SearchCanOpenSeveralItems`), because `highlightFAQItem`
never closes the other items.

## Model

| member | source | states |
|---|---|---|
| Text.Lower | help-center.js:70-71 | lower-casing keeps the number of characters |
| Text.LowerSpec | help-center.js:97-98 | after lower-casing no upper-case letter is left, and each character is either kept or is an ASCII letter folded to lower case |
| Text.LowerIdempotent | help-center.js:97-98 | lower-casing twice equals lower-casing once |
| Text.TrimStart | help-center.js:82 | the left trim is never longer than its input |
| Text.TrimStartSpec | help-center.js:82 | the left trim is a suffix of the input, everything it drops is white space, and it does not start with white space |
| Text.TrimEnd | help-center.js:82 | the right trim is never longer than its input |
| Text.TrimEndSpec | help-center.js:82 | the right trim is a prefix of the input, everything it drops is white space, and it does not end with white space |
| Text.Trim | help-center.js:82 | `trim` is never longer than its input |
| Text.TrimSpec | help-center.js:82 | a trimmed query has no white space at either end, and it is empty exactly when the input is all white space |
| Text.Normalise | help-center.js:82 | the search query, lower-cased then trimmed, is never longer than the raw input |
| Text.NormaliseBlank | help-center.js:82-84 | the normalised query is empty exactly when the raw input is empty or all white space |
| Text.Includes | help-center.js:100 | the empty query is contained in every text, and a contained query is no longer than the text |
| Text.IncludesSound | help-center.js:100 | when `includes` answers true, the query occurs at some index of the text |
| Text.IncludesComplete | help-center.js:100 | when the query occurs at some index, `includes` answers true |
| Text.IncludesIffOccurs | help-center.js:100 | `includes` answers true exactly when the query occurs at some index of the text |
| Text.Utf16Length | help-center.js:71 | JavaScript's `length` is at least the number of characters and at most twice it |
| Text.LowerKeepsUtf16Length | help-center.js:70-71 | lower-casing keeps the `length` in UTF-16 code units, so the live-input test sees the length of the raw value |
| HelpCenterModel.SelectCategory | help-center.js:14-31 | a category click keeps one flag per element and at most one notice, and changes no item, card or notice |
| HelpCenterModel.ToggleItem | help-center.js:34-49 | a question click changes only item flags, and no `search-highlight` among them |
| HelpCenterModel.ClearHighlights | help-center.js:134-144 | clearing changes no button, group or item `active` flag, and never adds a notice |
| HelpCenterModel.ItemMatches | help-center.js:97-100 | an item matches exactly when the query occurs in its lower-cased question or in its lower-cased answer |
| HelpCenterModel.CardMatches | help-center.js:109-112 | a card matches exactly when the query occurs in its lower-cased title or in its lower-cased description |
| HelpCenterModel.FirstButtonWithKey | help-center.js:154 | the answer is the first button in document order whose key is the group id, and None exactly when no button has that key |
| HelpCenterModel.RevealButton | help-center.js:150-156 | a click happens exactly when the item has a group, the group is hidden and some button has the group's id as key; the clicked button has that key |
| HelpCenterModel.HighlightItem | help-center.js:146-162 | highlighting an item keeps the page well formed and changes no card and no notice |
| HelpCenterModel.ScanItem | help-center.js:100-103 | one step keeps the page well formed, changes no card or notice, and item k gains both flags exactly when it matches |
| HelpCenterModel.ScanItems | help-center.js:93-104 | the item scan keeps the page well formed and changes no card and no notice |
| HelpCenterModel.ScanCards | help-center.js:107-116 | the card scan changes only card highlights |
| HelpCenterModel.ShowNoResults | help-center.js:168-186 | a notice is added when none is present, the count is kept when one is, and nothing else changes |
| HelpCenterModel.SomeItemMatches | help-center.js:94-104 | the item loop's `foundResults` flag after k items is true exactly when one of them matches |
| HelpCenterModel.SomeCardMatches | help-center.js:108-116 | the card loop's `foundResults` flag after k cards is true exactly when one of them matches |
| HelpCenterModel.Scanned | help-center.js:89-116 | after the clear and both scans the page is well formed and holds no notice |
| HelpCenterModel.Search | help-center.js:80-127 | a search keeps at most one notice, and a blank query leaves the page unchanged |
| HelpCenterModel.SearchReport | help-center.js:84-87 | the alert is reported exactly for a blank query, and "no results" exactly for a non-blank query that nothing matches |
| HelpCenterModel.Input | help-center.js:69-76 | a value longer than two UTF-16 code units changes nothing; a shorter one clears the highlights |
| HelpCenterProperties.SelectCategoryActivatesOnlyClicked | help-center.js:19-20 | after a click on button b, b is the only active button |
| HelpCenterProperties.SelectCategoryShowsOnlyKey | help-center.js:23-29 | after the click, a group is visible exactly when its id equals b's key |
| HelpCenterProperties.SelectCategoryExactlyOneVisible | help-center.js:23-29 | when group ids are unique and a group has the key, that group is the only visible one |
| HelpCenterProperties.SelectCategoryForgetsPriorFlags | help-center.js:16-29 | the button and group flags after a click do not depend on the flags before it |
| HelpCenterProperties.SelectCategoryIdempotent | help-center.js:14-31 | clicking the same button twice equals clicking it once |
| HelpCenterProperties.ToggleItemActiveSet | help-center.js:37-47 | clicking an open item leaves no item open; clicking a closed item leaves exactly that item open |
| HelpCenterProperties.ToggleItemSingleOpen | help-center.js:40-47 | after any question click, at most one item is open |
| HelpCenterProperties.ClearRemovesHighlightsAndNotice | help-center.js:134-144 | after clearing, no item or card is highlighted, no notice is left, and the open items are unchanged |
| HelpCenterProperties.ClearIdempotent | help-center.js:134-144 | clearing twice equals clearing once |
| HelpCenterProperties.BlankQueryChangesNothing | help-center.js:82-87 | a blank query changes no flag and no notice, and raises the alert |
| HelpCenterProperties.HighlightItemEffect | help-center.js:146-162 | the item ends highlighted and open, and no other item changes; if its group is hidden and has a button, buttons and groups are those of a click on that button; otherwise they are unchanged |
| HelpCenterProperties.ScanItemFlags | help-center.js:100-103 | one scan step touches only item k, which gains both flags exactly when it matches |
| HelpCenterProperties.ScanItemsFlags | help-center.js:96-104 | scanning items 0..n highlights and opens exactly the matching items among them, and changes no other item flag |
| HelpCenterProperties.ScannedFlags | help-center.js:89-116 | after the clear and both scans, an item is highlighted exactly when it matches, it is open when it was open or matches, and a card is highlighted exactly when it matches |
| HelpCenterProperties.SearchFlags | help-center.js:90-116 | the same holds for the page after a non-blank search |
| HelpCenterProperties.FlagSets | help-center.js:147 | per-element flags of that kind give the sets of highlighted items and cards and of open items |
| HelpCenterProperties.SearchHighlightsExactlyMatches | help-center.js:90-116 | after a non-blank search, the highlighted items and cards are exactly the matching ones |
| HelpCenterProperties.SearchOpensMatches | help-center.js:161 | after a non-blank search, the open items are those open before plus every matching item |
| HelpCenterProperties.SearchNoticeIffNoMatch | help-center.js:118-119 | after a non-blank search there is one notice exactly when nothing matched, and none otherwise |
| HelpCenterProperties.RepeatedFailedSearchKeepsOneNotice | help-center.js:170-185 | two failed searches in a row leave one notice, not two |
| HelpCenterProperties.HighlightItemRevealsGroup | help-center.js:150-158 | when the item's group is hidden and has a button, that button becomes the only active one and the group is shown |
| HelpCenterProperties.ScanStepShowsGroup | help-center.js:150-158 | scanning a matching item whose group has a button leaves that group visible |
| HelpCenterProperties.ScanStepKeepsGroups | help-center.js:150-158 | scanning any other item leaves every group's flag unchanged |
| HelpCenterProperties.ScanItemsKeepsLastRevealVisible | help-center.js:96-104 | after scanning items 0..n, the group of the last hit that has a button is visible |
| HelpCenterProperties.SearchShowsLastRevealedGroup | help-center.js:146-162 | after a search, the group of the last matching item that has a button is visible |
| HelpCenterProperties.ScanClickHidesOtherGroups | help-center.js:154-156 | the click made for a match hides every group whose id differs from that match's group, including a group shown for an earlier match |
| HelpCenterProperties.SearchCanHideEarlierMatchGroup | help-center.js:146-162 | with hidden groups "a" and "b", each holding an item "x", a search for "x" leaves group "a" hidden although its item matched |
| HelpCenterProperties.InputRule | help-center.js:69-76 | an input value of at most two UTF-16 code units clears every highlight and the notice; a longer one changes nothing |
| HelpCenterProperties.InputCountsCodeUnits | help-center.js:71 | "a" followed by an emoji is three code units long and changes nothing, while "ab" clears |
| HelpCenterProperties.TrimKeepsRefund | help-center.js:82 | trimming "refund" gives "refund" |
| HelpCenterProperties.TrimDropsPadding | help-center.js:82 | trimming " refund " gives "refund" |
| HelpCenterProperties.UpperQueryIsFolded | help-center.js:82 | the query "REFUND" searches for "refund" |
| HelpCenterProperties.PaddedQueryIsTrimmed | help-center.js:82 | the query " refund " searches for "refund" |
| HelpCenterProperties.CapitalisedQuestionMatches | help-center.js:97-100 | a question "Refund" matches the query "refund" |
| HelpCenterProperties.SearchCanOpenSeveralItems | help-center.js:146-162 | two matching items are both open after the search, so at least two items are open |
| HelpCenter.HelpCenterPage.constructor | help-center.js:9-11 | the page starts in the state the markup gives, and is well formed |
| HelpCenter.HelpCenterPage.ClickCategory | help-center.js:14-31 | the loops end in the state of SelectCategory; only the clicked button is active, and a group is hidden exactly when its id differs from the key |
| HelpCenter.HelpCenterPage.ClickQuestion | help-center.js:34-49 | the loop ends in the state of ToggleItem; the open items are none or just the clicked one |
| HelpCenter.HelpCenterPage.ClearSearchHighlights | help-center.js:134-144 | the loops end in the state of ClearHighlights, with no highlight and no notice |
| HelpCenter.HelpCenterPage.HighlightFaqItem | help-center.js:146-162 | ends in the state of HighlightItem |
| HelpCenter.HelpCenterPage.HighlightHelpCard | help-center.js:164-166 | only card c's highlight changes, and it becomes set |
| HelpCenter.HelpCenterPage.ShowNoResultsMessage | help-center.js:168-186 | ends in the state of ShowNoResults, with exactly one notice |
| HelpCenter.HelpCenterPage.SearchFaqItems | help-center.js:93-104 | the item loop ends in the state of ScanItems, and its flag is true exactly when some item matches |
| HelpCenter.HelpCenterPage.SearchHelpCards | help-center.js:107-116 | the card loop ends in the state of ScanCards, and its flag is true exactly when some card matches |
| HelpCenter.HelpCenterPage.PerformSearch | help-center.js:80-127 | ends in the state of Search and reports what SearchReport gives |
| HelpCenter.HelpCenterPage.OnSearchInput | help-center.js:69-76 | ends in the state of Input |

## Left out

- `alert`, `scrollIntoView` and the notice's inner HTML (help-center.js:85, 122-125, 173-183) are presentation only. The alert appears as the `EmptyQuery` outcome. The notice counts only by its presence.
- The injected stylesheet (help-center.js:188 onward) is CSS text with no logic.
- Event wiring (`DOMContentLoaded`, and the click and Enter-key listeners) and the null guard on the search box (help-center.js:2-5, 54-66) are left out. Each handler is a direct method call, and the search button click and the Enter key both become `PerformSearch`.
- `toLowerCase` folds only ASCII letters here. Full Unicode case mapping, including mappings that change a string's length, is left out.
- Trimming uses the ECMAScript white-space and line-terminator code points, and `includes` compares characters. A Dafny `char` is one Unicode scalar value where JavaScript strings hold UTF-16 code units. For well-formed text this changes no trim and no match, because no surrogate is white space and surrogate pairs cannot match half a character. The one place where the count differs is the `length` test of the input listener (help-center.js:71), and there HelpCenterModel.Input and HelpCenter.HelpCenterPage.OnSearchInput count code units with Text.Utf16Length. Strings holding unpaired surrogates are not modelled.
- Markup is assumed well formed. Every item has its question heading and answer paragraph, every card has its heading and paragraph, and every question sits inside an item (help-center.js:36, 97-98, 109-110). The script crashes otherwise.
- The `.help-search` section is assumed present. `showNoResultsMessage` would throw on a missing section (help-center.js:169, 184).
- The category button is looked up among the category buttons by exact key. The source uses `[data-category="…"]`, which also matches other elements with that attribute. It inserts the id into the selector unescaped (help-center.js:154).
- `clearSearchHighlights` removes `search-highlight` from any element. Here only items and cards carry it, since they are the only elements the script highlights.
- `highlightSearchResults` is an empty hook (help-center.js:129-132), so it is modelled as no change.
- The notice is a count, not a flag, so "at most one notice" is a proved invariant rather than built into the type. Clearing removes the first notice, as `querySelector` does. Showing appends a notice only when none is present.
- HelpCenterModel.SelectCategory, HelpCenterModel.ToggleItem, HelpCenterModel.HighlightItem, HelpCenterModel.ScanItems and HelpCenterModel.ScanCards: their own contracts state only what is unchanged. Their full effect is stated by the lemmas of HelpCenterProperties in the table above.
- Text.Lower, Text.TrimStart, Text.TrimEnd, Text.Trim and Text.Normalise: their own contracts state only lengths. What they compute is stated by Text.LowerSpec, Text.TrimStartSpec, Text.TrimEndSpec, Text.TrimSpec and Text.NormaliseBlank.
- Text.Includes: its own contract states only the empty query and the length bound. Its full meaning is stated by Text.IncludesIffOccurs.
