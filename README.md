# WebViewDebugSample: heading-collapse engine and host helpers in Dafny

This project models two pieces of the WebView debugging sample.

**The heading-collapse script** (`github-collapse-markdown.js`):
- State:
  - The heading-id table: `headingsMap` maps a heading id to an index, `usedHeadings` records the ids seen since the last save, and `headingIndex` is the counter new indices come from.
  - The collapsed signatures, `collapsedHeadings`.
  - The colour palette.
  - The markdown body, modelled as a flat sequence of elements. Each element is a heading of level 1..6 or some other element. It has an id (the empty string stands for "no id") and the two class flags `ghcm-collapsed` and `ghcm-hidden`. The selector `H1,...,Hk` matches a heading of level at most k. The previous sibling of position k is k - 1, and before position 0 the walk reaches BODY.
- Structure:
  - `CollapseSpec` states every state-changing operation as a pure function on values.
  - `CollapseMarkdown.CollapseState` is the script's closure as an object. Its methods update the fields in place with the source's own loops, and each state-changing one is proved equal to its pure counterpart. The read-only search `FirstCollapsedHeading` has no pure counterpart; its contract states its result directly.
- Quirk kept from the source: `usedHeadings` is a JavaScript array used as a dictionary, so `hasOwnProperty("length")` is always true. An id "length" therefore always counts as used (`IsUsed`).

**The sample host** (`Browser.java`), in module `BrowserHost`:
- The helpers modelled:
  - URL normalisation.
  - HTML instrumentation by `String.replace`.
  - The message counter, which wraps around like a Java `int`, and the type-to-CSS-class switch.
  - The debug port, kept in the script state with default 51723, and the ±1 menu actions.
  - The enable conditions of the history menu items.
- Representation:
  - The script state is a `map<string, int>` whose lookups take a default.
  - No state provider is `None`.
  - The bridge's `isDebugging()` and `getStateString()` are parameters.

Module `Strings` holds the text helpers both parts need:
- decimal rendering of integers, with its parse round trip;
- `String.contains`;
- `String.replace` with its insertion and length lemmas;
- `join("-")` and `reverse()`.

Module `Wrappers` holds the `Option` type both parts use.

## Model

| member | source | states |
|---|---|---|
| CollapseSpec.MaxIndex | src/main/resources/github-collapse-markdown.js:49-59 | the adjusted counter is 0 when the map is empty and otherwise the maximum of 0 and every index in the map, whatever order the keys are visited in |
| CollapseSpec.MaxIndexUnique | src/main/resources/github-collapse-markdown.js:49-59 | the adjusted counter is determined by the map alone, so key order does not matter |
| CollapseSpec.MaxIndexStep | src/main/resources/github-collapse-markdown.js:55-57 | visiting one more key raises the running maximum exactly when its index is larger |
| CollapseSpec.Issue | src/main/resources/github-collapse-markdown.js:61-69 | a known id returns its stored index and leaves the map and counter alone; a new id is stored with, and returns, counter + 1, which becomes the counter; either way the id becomes used; a covering counter stays covering and a new index differs from every index already in the map |
| CollapseSpec.IssueKeepsInjective | src/main/resources/github-collapse-markdown.js:49-69 | once the counter covers the map, issuing an index keeps the map injective |
| CollapseSpec.PrunedStep | src/main/resources/github-collapse-markdown.js:74-82 | one iteration of the pruning loop adds the visited id exactly when its index is non-zero and it is used |
| CollapseSpec.PruneLowersCounter | src/main/resources/github-collapse-markdown.js:73-84 | after pruning, the recomputed counter is not above the old covering counter, and an injective map stays injective |
| CollapseSpec.LoadTolerant | src/main/resources/github-collapse-markdown.js:95-115 | with no state or a missing field, both maps are empty and the counter is 0; an array of collapsed signatures becomes an empty map; otherwise the map is the loaded one and the counter is its maximum; `usedHeadings` is untouched |
| CollapseSpec.SaveThenLoad | src/main/resources/github-collapse-markdown.js:71-115 | loading the saved state object restores the pruned map, its counter and the collapsed signatures |
| CollapseSpec.ChainShape | src/main/resources/github-collapse-markdown.js:144-170 | the walk visits the nearest matching heading, then each time the nearest earlier heading of strictly lower level, and stops where there is none; in particular, nothing follows an H1 |
| CollapseSpec.ChainPositions | src/main/resources/github-collapse-markdown.js:144-170 | every position the walk records is a heading at or before the start |
| CollapseSpec.ChainStart | src/main/resources/github-collapse-markdown.js:144-152 | the first recorded position is the nearest heading at or before the start that the selector matches; with none, nothing is recorded |
| CollapseSpec.ChainLinks | src/main/resources/github-collapse-markdown.js:153-168 | after a heading of level n the walk records the nearest earlier heading of level below n |
| CollapseSpec.ChainEnd | src/main/resources/github-collapse-markdown.js:153-170 | the last recorded heading has no heading of lower level before it |
| CollapseSpec.ChainIdsMembers | src/main/resources/github-collapse-markdown.js:147-148 | the ids passed to `getHeaderIndex` along a walk are exactly the non-empty ids at the walk's positions |
| CollapseSpec.StepTable | src/main/resources/github-collapse-markdown.js:146-151 | one recorded heading extends the map, marks its id used, and keeps the counter covering and the map injective |
| CollapseSpec.StepText | src/main/resources/github-collapse-markdown.js:147-151 | the pushed text is "Hn-index" with the index the id keeps from then on, or "Hn-undef" without an id |
| CollapseSpec.WalkKeepsValid | src/main/resources/github-collapse-markdown.js:144-170 | the walk keeps a covering counter covering the map, and an injective map injective |
| CollapseSpec.WalkExtends | src/main/resources/github-collapse-markdown.js:144-170 | the walk never changes or removes an index already in the map |
| CollapseSpec.WalkUsed | src/main/resources/github-collapse-markdown.js:144-170 | the walk marks exactly the chain's ids as used |
| CollapseSpec.WalkIssues | src/main/resources/github-collapse-markdown.js:144-170 | every id on the chain has an index once the walk is over |
| CollapseSpec.WalkTable | src/main/resources/github-collapse-markdown.js:144-170 | the walk marks exactly the chain's ids used, gives each one an index and never changes an existing index |
| CollapseSpec.WalkHeaders | src/main/resources/github-collapse-markdown.js:144-170 | the walk pushes one header per chain position, innermost first, each with its final index |
| CollapseSpec.SignatureShape | src/main/resources/github-collapse-markdown.js:138-174 | the signature is the heading's own header plus the nearest preceding headings of strictly lower level, joined outermost first with "-"; levels strictly increase left to right and the walk ends at an H1 or at the first heading with nothing lower before it |
| CollapseSpec.SectionEndFrom | src/main/resources/github-collapse-markdown.js:185-190 | the scan stops at the first heading of level at most `level`, or at the end, and skips only non-matching elements |
| CollapseSpec.SectionEnd | src/main/resources/github-collapse-markdown.js:185-190 | the section of a heading ends after the heading and within the page |
| CollapseSpec.SectionEndFromShape | src/main/resources/github-collapse-markdown.js:187-190 | the section boundary depends only on element kinds, not on the class flags |
| CollapseSpec.NextHeaderOf | src/main/resources/github-collapse-markdown.js:176-212 | `nextHeader` changes class flags only: every element keeps its kind and id |
| CollapseSpec.CollapseHidesSection | src/main/resources/github-collapse-markdown.js:176-198 | collapsing marks the heading collapsed and hides exactly the elements up to the next heading of level at most its own; everything else is unchanged; the table is the one `headerIds` leaves and the heading's signature is recorded as collapsed |
| CollapseSpec.ExpandNeverHides | src/main/resources/github-collapse-markdown.js:176-211 | expanding marks the heading not collapsed, hides nothing new, unhides every heading of the section, unhides any other element of the section exactly when its governing heading is not collapsed and otherwise leaves it alone, and leaves everything outside the section unchanged; the table is the one `headerIds` leaves and the signature is recorded as expanded |
| CollapseSpec.GoverningIgnoresHidden | src/main/resources/github-collapse-markdown.js:200-209 | `currentCollapsed` depends only on kinds and collapsed flags, not on hidden flags |
| CollapseSpec.GoverningWithoutCollapsed | src/main/resources/github-collapse-markdown.js:200-209 | with no collapsed sub-heading before it, no element of the section stays hidden |
| CollapseSpec.CollapseThenExpand | src/main/resources/github-collapse-markdown.js:176-211 | collapsing then expanding keeps nested collapses: a non-heading stays hidden exactly when the last heading above it in the section is collapsed |
| CollapseSpec.ToggleBody | src/main/resources/github-collapse-markdown.js:117-133 | a plain toggle expands a collapsed heading's section and collapses an expanded one's |
| CollapseSpec.ToggleTwiceRestores | src/main/resources/github-collapse-markdown.js:117-212 | an expanded heading whose section has nothing hidden and no collapsed sub-heading, toggled twice, gets its body's flags back (the table and the recorded signature do change) |
| CollapseSpec.ToggleTwiceRestoresCollapsed | src/main/resources/github-collapse-markdown.js:117-212 | a collapsed heading whose whole section is hidden, toggled twice, gets its body's flags back |
| CollapseSpec.ToggleTwiceCanHide | src/main/resources/github-collapse-markdown.js:117-212 | from other starting states two toggles need not give the body back: a collapsed H2 over a shown paragraph ends with the paragraph hidden |
| CollapseSpec.SameLevelFrom | src/main/resources/github-collapse-markdown.js:127 | the shifted toggle selects exactly the headings of the clicked level, in document order |
| CollapseSpec.NextAll | src/main/resources/github-collapse-markdown.js:128-130 | running `nextHeader` over the selection keeps every element's kind and id |
| CollapseSpec.NextAllUnfold | src/main/resources/github-collapse-markdown.js:128-130 | the loop over the selection runs `nextHeader` on the current element and then on the rest |
| CollapseSpec.NextHeaderCollapsedFlags | src/main/resources/github-collapse-markdown.js:177 | `nextHeader` changes the collapsed flag of its own heading only |
| CollapseSpec.NextAllCollapsedFlags | src/main/resources/github-collapse-markdown.js:126-130 | after the loop, each selected heading has the new flag and every other element keeps its own |
| CollapseSpec.ToggleCollapsedFlags | src/main/resources/github-collapse-markdown.js:117-133 | a plain toggle flips the heading's collapsed flag; a shifted toggle gives that flag to every heading of the same level and to nothing else |
| CollapseSpec.IsUsed | src/main/resources/github-collapse-markdown.js:79 | `usedHeadings.hasOwnProperty(id)` on an array used as a dictionary: the id was marked, or it is "length" |
| CollapseSpec.Pruned | src/main/resources/github-collapse-markdown.js:73-83 | the new map of the pruning loop: the used ids whose index is truthy (non-zero), with their indices |
| CollapseSpec.SavedTable | src/main/resources/github-collapse-markdown.js:71-84 | after a save the map is pruned and the counter readjusted to it; the used ids are kept |
| CollapseSpec.SavedRecord | src/main/resources/github-collapse-markdown.js:87-92 | the object handed to `setState` holds the map and the collapsed signatures |
| CollapseSpec.Loaded | src/main/resources/github-collapse-markdown.js:95-115 | a state with both fields gives its map, the counter adjusted to it, and its signatures (an array becomes an empty map); any other state gives empty maps and counter 0 |
| CollapseSpec.PartText | src/main/resources/github-collapse-markdown.js:147-151 | the header text: node name, "-", then the index or "undef" |
| CollapseSpec.Step | src/main/resources/github-collapse-markdown.js:146-151 | one matching heading: `getHeaderIndex` when it has an id, and its header text |
| CollapseSpec.Walk | src/main/resources/github-collapse-markdown.js:144-170 | the backward loop: matching headings are recorded, the selector narrows to levels below the last one, and the loop ends after an H1 or at BODY |
| CollapseSpec.ChainFrom | src/main/resources/github-collapse-markdown.js:144-170 | the positions the backward loop records, innermost first |
| CollapseSpec.HeaderIdsOf | src/main/resources/github-collapse-markdown.js:138-174 | `headerIds`: the walk from the heading's own level, reversed and joined with "-"; "" for an element that is not a heading |
| CollapseSpec.WalkShape | src/main/resources/github-collapse-markdown.js:144-170 | the walk reads the kinds and ids of elements only, never their class flags |
| CollapseSpec.HeaderIdsShape | src/main/resources/github-collapse-markdown.js:138-174 | the signature and table `headerIds` leaves do not depend on the class flags |
| CollapseSpec.Collapse | src/main/resources/github-collapse-markdown.js:195-198 | every element of the section gets `ghcm-hidden` |
| CollapseSpec.Governing | src/main/resources/github-collapse-markdown.js:193-209 | the value of `currentCollapsed` at a position: the collapsed flag of the last heading met in the section, false before any |
| CollapseSpec.Expand | src/main/resources/github-collapse-markdown.js:199-210 | headings of the section are unhidden; other elements only when `currentCollapsed` is false |
| CollapseSpec.ToggleOf | src/main/resources/github-collapse-markdown.js:117-133 | `toggleHeader`: flip the heading's collapsed flag, then `nextHeader` on it, or on every heading of its level when shifted |
| CollapseSpec.CheckedColors | src/main/resources/github-collapse-markdown.js:348-352 | a missing palette, or one without exactly six colours, becomes the default palette; a six-colour palette is kept |
| CollapseMarkdown.CollapseState.constructor | src/main/resources/github-collapse-markdown.js:29-36 | the script starts with counter 0, empty maps, no used ids and the default palette, and the table is valid |
| CollapseMarkdown.CollapseState.AdjustHeadingIndex | src/main/resources/github-collapse-markdown.js:49-59 | the key loop leaves the counter at the maximum of 0 and every index, and changes nothing else |
| CollapseMarkdown.CollapseState.GetHeaderIndex | src/main/resources/github-collapse-markdown.js:61-69 | the new table and the returned index are those of `Issue`; a covering counter stays covering and a valid table stays valid |
| CollapseMarkdown.CollapseState.SaveCollapsedState | src/main/resources/github-collapse-markdown.js:71-93 | the map becomes its pruned sub-map and the counter its maximum; the object handed to the host holds the map and the collapsed signatures; the counter covers the map afterwards and a valid table stays valid |
| CollapseMarkdown.CollapseState.PrunedHeadings | src/main/resources/github-collapse-markdown.js:73-84 | the pruning loop, visiting the keys in any order, builds exactly `Pruned` of the map and the used ids, and changes nothing |
| CollapseMarkdown.CollapseState.LoadCollapsedState | src/main/resources/github-collapse-markdown.js:95-115 | the table and the collapsed signatures become those of `Loaded` for the host's state, and the counter covers the map |
| CollapseMarkdown.CollapseState.HeaderIds | src/main/resources/github-collapse-markdown.js:138-174 | the backward walk with its break at H1 returns the signature and leaves the table as `HeaderIdsOf` says; a covering counter stays covering and a valid table stays valid |
| CollapseMarkdown.CollapseState.HeaderPart | src/main/resources/github-collapse-markdown.js:146-151 | the header pushed for a matching heading and the table afterwards are those of one step of the walk |
| CollapseSpec.SectionEndFromStop | src/main/resources/github-collapse-markdown.js:185-190 | the position where the forward scan stops is the section end |
| CollapseMarkdown.CollapseState.FindSectionEnd | src/main/resources/github-collapse-markdown.js:185-190 | the scan stops after the heading at the first heading of level at most `level`, or at the end, having passed only non-matching elements |
| CollapseMarkdown.CollapseState.NextHeader | src/main/resources/github-collapse-markdown.js:176-212 | the new page (flags, table and collapsed signatures) is `NextHeaderOf` of the old page; a covering counter stays covering and a valid table stays valid |
| CollapseMarkdown.CollapseState.HideSection | src/main/resources/github-collapse-markdown.js:195-198 | every element of the section gets `ghcm-hidden` and nothing else changes |
| CollapseMarkdown.CollapseState.UnhideSection | src/main/resources/github-collapse-markdown.js:199-210 | the section is unhidden following `currentCollapsed`, as `Expand` states |
| CollapseMarkdown.CollapseState.NextHeaderAll | src/main/resources/github-collapse-markdown.js:128-130 | the loop over the selection leaves the page `NextAll` describes; a covering counter stays covering and a valid table stays valid |
| CollapseMarkdown.CollapseState.ToggleHeader | src/main/resources/github-collapse-markdown.js:117-136 | a missing element changes nothing; otherwise the new page is `ToggleOf` of the old page, plain or shifted; a covering counter stays covering and a valid table stays valid |
| CollapseMarkdown.CollapseState.CheckColors | src/main/resources/github-collapse-markdown.js:348-352 | the palette becomes `CheckedColors` of the old palette |
| CollapseMarkdown.CollapseState.FirstCollapsedHeading | src/main/resources/github-collapse-markdown.js:215-241 | for a hidden element, returns the nearest earlier collapsed and visible heading, with none between; returns none when the element is visible or no such heading exists |
| BrowserHost.Wrap32 | src/main/java/com/vladsch/javafx/webview/debugger/Browser.java:251 | Java `int` arithmetic: the result is congruent modulo 2^32 and is the value itself when in range |
| BrowserHost.GetUrl | src/main/java/com/vladsch/javafx/webview/debugger/Browser.java:323-329 | `getUrl`: "http://" is put in front of a text with no "://" |
| BrowserHost.InstrumentHtml | src/main/java/com/vladsch/javafx/webview/debugger/Browser.java:119-129 | `instrumentHtml`: when not debugging every `<head>` becomes `<head>` plus the helper script; with non-empty state every `<body>` then becomes `<body>` plus the state script |
| BrowserHost.TagsApart | src/main/java/com/vladsch/javafx/webview/debugger/Browser.java:122-126 | `<head>` and `<body>` cannot overlap, nor can the helper script tag and `<body>` |
| Strings.ReplaceKeepsApart | src/main/java/com/vladsch/javafx/webview/debugger/Browser.java:122-126 | a second `replace` keeps a text inserted by the first when the two cannot overlap |
| BrowserHost.MessagePrefix | src/main/java/com/vladsch/javafx/webview/debugger/Browser.java:257-271 | the switch on the message type: "warn", "error" and "debug" get their own class, any other type the plain `msg` class |
| BrowserHost.CountedMessage | src/main/java/com/vladsch/javafx/webview/debugger/Browser.java:251-252 | the counted text is "[" + count + "]" + message |
| BrowserHost.HistoryButtons | src/main/java/com/vladsch/javafx/webview/debugger/Browser.java:383-387 | "Go Back" is disabled at index 0, "Go Forward" when index + 1 reaches the number of entries |
| BrowserHost.PortIn | src/main/java/com/vladsch/javafx/webview/debugger/Browser.java:542-545 | `getPort`: the stored "debugPort", or 51723 when none is stored |
| BrowserHost.PortMenuTexts | src/main/java/com/vladsch/javafx/webview/debugger/Browser.java:397-402 | `updatePortMenu`: "Port: " + port, and "Change to: " + (port - 1) and + (port + 1) in `int` arithmetic |
| BrowserHost.Browser.GetPort | src/main/java/com/vladsch/javafx/webview/debugger/Browser.java:542-545 | reads the port from the provider's state |
| BrowserHost.GetUrlHasScheme | src/main/java/com/vladsch/javafx/webview/debugger/Browser.java:323-329 | the normalised URL always contains "://" |
| BrowserHost.GetUrlPrefixesExactly | src/main/java/com/vladsch/javafx/webview/debugger/Browser.java:323-329 | "http://" is prefixed exactly when the text has no "://"; a text with one is returned unchanged |
| BrowserHost.GetUrlIdempotent | src/main/java/com/vladsch/javafx/webview/debugger/Browser.java:323-329 | normalising twice is normalising once |
| BrowserHost.InstrumentHtmlUnchanged | src/main/java/com/vladsch/javafx/webview/debugger/Browser.java:119-129 | the page comes back unchanged exactly when (debugging or no `<head>`) and (no non-empty state or no `<body>`) |
| BrowserHost.InstrumentHtmlDebuggingKeepsHead | src/main/java/com/vladsch/javafx/webview/debugger/Browser.java:121-128 | when debugging, `<head>` is not rewritten: with no or empty state the page is the identity, otherwise only `<body>` is rewritten |
| BrowserHost.InstrumentHtmlAddsHeadScript | src/main/java/com/vladsch/javafx/webview/debugger/Browser.java:121-128 | when not debugging, a page with `<head>` gets the helper script tag, whatever the state |
| BrowserHost.InstrumentHtmlAddsState | src/main/java/com/vladsch/javafx/webview/debugger/Browser.java:121-128 | with non-empty state, a page with `<body>` gets the state script, whether or not the head rewrite also applies |
| BrowserHost.MessagePrefixClasses | src/main/java/com/vladsch/javafx/webview/debugger/Browser.java:257-271 | exactly the types other than "warn", "error" and "debug", "log" among them, get the plain `msg` class, and the three get three distinct classes |
| BrowserHost.CountedMessageInjective | src/main/java/com/vladsch/javafx/webview/debugger/Browser.java:251-252 | different counts give different counted texts for the same message |
| BrowserHost.IntToStringNoBracket | src/main/java/com/vladsch/javafx/webview/debugger/Browser.java:252 | the decimal rendering of the count holds no "]" |
| BrowserHost.HistoryButtonsMatchEntries | src/main/java/com/vladsch/javafx/webview/debugger/Browser.java:383-387 | in a history whose current index is an entry, "Go Back" is enabled iff there is an earlier entry and "Go Forward" iff there is a later one; both are disabled only for a single entry |
| BrowserHost.PortStore | src/main/java/com/vladsch/javafx/webview/debugger/Browser.java:542-550 | without a stored port the port is 51723; a stored port is read back; storing a port changes no other key |
| BrowserHost.PortMenuMatchesActions | src/main/java/com/vladsch/javafx/webview/debugger/Browser.java:397-402 | at every port, each "Change to: " item shows what the port label shows after that action; away from the `int` edges that is port - 1 (port + 1), and at the edges the port on the other side of the wrap |
| BrowserHost.Browser.constructor | src/main/java/com/vladsch/javafx/webview/debugger/Browser.java:63 | the message count starts at 0 |
| BrowserHost.Browser.AddMessage | src/main/java/com/vladsch/javafx/webview/debugger/Browser.java:250-271 | the count goes up by exactly one (with `int` wrap-around), the counted text is "[" + new count + "]" + message, and the prefix is the type's class |
| BrowserHost.Browser.AddLogMessage | src/main/java/com/vladsch/javafx/webview/debugger/Browser.java:246-248 | a one-argument message is a "log" message with the plain class |
| BrowserHost.Browser.SetPort | src/main/java/com/vladsch/javafx/webview/debugger/Browser.java:547-550 | the port is stored under "debugPort", `GetPort` then returns it, and every other key is unchanged |
| BrowserHost.Browser.DecrementPort | src/main/java/com/vladsch/javafx/webview/debugger/Browser.java:460-463 | the port goes down by exactly one (with `int` wrap-around), to the port the decrement item named |
| BrowserHost.Browser.IncrementPort | src/main/java/com/vladsch/javafx/webview/debugger/Browser.java:464-467 | the port goes up by exactly one (with `int` wrap-around), to the port the increment item named |

## Left out

- The DevTools bridge, the CDP server and the state provider are not part of this model. `isDebugging()` and `getStateString()` are parameters, and the provider's state is a `map<string, int>`.
- `GetPort` does not model the library's conversion of the stored JSON number to `int` (`intValue`). Stored values are already integers.
- JavaFX UI wiring is left out: the WebView, the menus and their item texts beyond the port labels, the clipboard and the layout.
- Floating-point view settings (zoom, split position) are left out.
- File I/O is left out: the messages file, `loadStartPage`, and the sample's state-file handling.
- `System.out.println` is left out. `AddMessage` returns the printed text instead.
- The `Platform.runLater` block of `addMessage` is left out. It reads the counter later, on another thread.
- The script's `$`, `$$` and `closest` are left out. The shifted toggle's selection is `SameLevelFrom` on the flat page.
- The click handler `addBinding`, `removeSelection` (the last call of `toggleHeader`) and the CSS built by `addColors` are left out. They are browser plumbing.
- `FirstCollapsedHeading`: does not model the search for an enclosing closed DETAILS element, because the flat page has no ancestors.
- `HeaderIds`: does not model the climb to `parentNode` when there is no previous sibling, because the flat page's parent is BODY. Text and comment nodes are not modelled either; the walk skips them anyway.
- `siblings` and the hash branch of `checkHash` are left out. `siblings` calls `classList.remove` on an array, which throws, so it has no working behaviour.
- The restore loop of `checkHash` is not modelled as an operation. It only composes `HeaderIds` and `ToggleHeader`.
- `LoadCollapsedState`: does not model stored values of other JSON types, for example a non-integer index, a `null` map, or a `null` `collapsedHeadings` that makes the `constructor` test throw.
- Ids that collide with JavaScript object internals are not modelled: "__proto__", and array-index ids of `usedHeadings` other than "length".
- The `JSON.stringify` result in `saveCollapsedState` is left out because it is never used. The object passed to `setState` is the returned `StoredState`.
- `NextHeader`: requires a level of at least 1. A level of 0 or NaN gives an empty selector, whose `matches` throws outside any try.
- `ToggleHeader`: requires the element to be a heading. Its callers (the click handler and the restore loop) only pass headings.
- `IntToString`: renders every integer in plain decimal. JavaScript switches to exponent notation from 10^21 on; the script's indices are counters far below that.
- `ToggleTwiceRestores`: is stated only for an expanded heading whose section has nothing hidden, and `ToggleTwiceRestoresCollapsed` only for a collapsed heading whose whole section is hidden. From other starting states the script itself does not restore the body (`ToggleTwiceCanHide`).
