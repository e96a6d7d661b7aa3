# draught front-end core, modelled in Dafny

This project models five in-memory parts of the draught site front-end as
pure Dafny functions over immutable records, and proves what each part
promises:

- **View navigation** (`Navigation`, `NavigationLemmas`). This is the
  `useNavigation` controller over the nav record, the scroll record and its
  two private save slots (`prevShowIssue`, `prevShowIssueForHome`).
  - Every operation maps a `Controller` to a new `Controller`.
  - `typeof window !== 'undefined'` becomes `Env.hasWindow`, and
    `window.scrollY` becomes `Env.scrollY`.
  - `requestAnimationFrame` appends a `RestoreFromIndex` task to
    `Controller.pending`. `RunPending` and `RunFrame` run the queued
    callbacks and report each `window.scrollTo` as a `ScrollTo(top)` effect.
- **Issue-visibility registry** (`VisibilityRegistry`). This is the global
  set of visible section ids and the section counter. A handle carries the
  identity of its `onNoVisibleSections` callback, and every step reports
  which callback, if any, it invoked.
- **Hover-image store** (`HoverImageStore`). It holds three things:
  - the insertion-ordered entry map, keyed by source and article id, as a
    sequence with unique keys;
  - the most-recently-used id order, bounded by `STACK_LIMIT = 12`;
  - the payload map.

  Each operation returns the new store and the state it publishes, if any.
- **Tag aggregation and the hover cell** (`Articles`). These are
  `getUniqueTags` and `createArticleHoverState` from `useArticles`.
- **SEO helpers** (`Seo`). These are `createSEOData`, `createSlug` and
  `truncateDescription`.

`Common` holds the shared pieces:
- `Option`;
- the whitespace table and `trim`;
- the decimal rendering of a counter;
- the code-point order used by `Array.prototype.sort`.

## Model

| member | source | states |
|---|---|---|
| Navigation.ToggleView | src/lib/components/navigation/composables/useNavigation.ts:10-18 | Flips exactly the chosen view flag; the other flags, the rest of the nav record, the scroll record, the save slots and the frame queue are unchanged. |
| NavigationLemmas.ToggleViewTwice | src/lib/components/navigation/composables/useNavigation.ts:10-18 | Toggling the same view twice gives back the original controller. |
| Navigation.ShowView | src/lib/components/navigation/composables/useNavigation.ts:20-44 | Showing home or issue leaves exactly one of them active, the one asked for. Home also closes the index; issue keeps it. Showing the index only sets the index flag. Nothing outside the view flags changes. |
| NavigationLemmas.ShowViewsExclusive | src/lib/components/navigation/composables/useNavigation.ts:24-33 | After any non-empty run of home/issue `showView` calls, exactly one of home and issue is active, and it is the last one shown. |
| Navigation.ShowHomeView | src/lib/components/navigation/composables/useNavigation.ts:46-106 | Closing home clears only the home flag, restores `showIssue` from the home save slot (or keeps it) and empties that slot. Opening home shows it alone with `showIssue` false. Over the index it also clears the tag, saves `prevShowIssue ?? showIssue`, empties `prevShowIssue` and queues the index restore when a window exists. Otherwise it saves the current `showIssue`. The scroll record is never touched. |
| NavigationLemmas.HomeRoundTrip | src/lib/components/navigation/composables/useNavigation.ts:46-106 | Opening and then closing home hides every view, returns `showIssue` to the value home saved and empties the home slot. The saved value is the current `showIssue`, or the index's saved one when home replaced the index. |
| NavigationLemmas.ScenarioHomeReplacesIndex | src/lib/components/navigation/composables/useNavigation.ts:64-104 | Switching from the index (over an open issue panel) to home shows home alone, hides the issue panel, carries the saved `true` into the home slot and queues the index restore. |
| Navigation.ShowIssuesWithoutFilter | src/lib/components/navigation/composables/useNavigation.ts:108-118 | Clears the tag, hides home and shows issue. The index flag, `showIssue`, the save slots and the scroll record are unchanged. |
| Navigation.ToggleIndex | src/lib/components/navigation/composables/useNavigation.ts:120-183 | Opening shows the index alone, hides the issue panel and saves `showIssue`. With a window it also records `scrollY` as the index checkpoint and raises its flag. Closing restores `prevShowIssue ?? showIssue`, clears the tag, hides every view and empties the slot. With a window, closing also queues exactly one restore task. |
| NavigationLemmas.IndexRoundTrip | src/lib/components/navigation/composables/useNavigation.ts:124-180 | Opening and then closing the index restores the original `showIssue`, hides every view, clears the tag and empties `prevShowIssue`. When both calls see a window, the next frame scrolls exactly once, to the offset captured on opening. |
| NavigationLemmas.ScenarioIndexOverHome | src/lib/components/navigation/composables/useNavigation.ts:124-180 | With home shown and the issue panel closed, opening the index saves `false`, and closing it leaves all views hidden, the panel closed and no tag. |
| Navigation.RestoreIndexScroll | src/lib/components/navigation/composables/useNavigation.ts:152-168 | The frame callback scrolls to the checkpoint and consumes it only when the flag is set and an offset is recorded; otherwise it leaves the record unchanged. No checkpoint is left pending afterwards. |
| NavigationLemmas.RestoreConsumedOnce | src/lib/components/navigation/composables/useNavigation.ts:152-168 | Running the frame callback twice scrolls at most once, and the second run changes nothing. |
| Navigation.RunPending | src/lib/components/navigation/composables/useNavigation.ts:72-88 | Runs the oldest queued callback and dequeues it. When a checkpoint is pending (restore flag set and an index scroll saved), it scrolls to exactly that position and consumes both. Otherwise it neither scrolls nor touches the scroll record. The nav record and the save slots never change. |
| Common.Option.GetOr | src/lib/components/navigation/composables/useNavigation.ts:51 | The `??` operator: a present value wins, and an absent one yields the default. |
| Navigation.RunFrame | src/lib/components/navigation/composables/useNavigation.ts:152-168 | Runs every queued callback and leaves the queue empty, with the nav record and the slots unchanged. |
| NavigationLemmas.FrameScrollsAtMostOnce | src/lib/components/navigation/composables/useNavigation.ts:152-168 | However many restores are queued, one frame scrolls at most once. When a checkpoint was pending, it scrolls exactly to that checkpoint and leaves none behind. |
| NavigationLemmas.FrameWithoutCheckpoint | src/lib/components/navigation/composables/useNavigation.ts:152-168 | With no checkpoint pending, a frame scrolls nowhere and leaves the scroll record alone. |
| NavigationLemmas.FrameClearsCheckpoint | src/lib/components/navigation/composables/useNavigation.ts:160-164 | When the offset and its flag are paired, any frame with a queued callback clears both. |
| NavigationLemmas.RunOpsKeepsCheckpointPaired | src/lib/stores/scrollStore.ts:8-11 | Starting with the index offset recorded exactly while its flag is set, every sequence of controller operations and frame callbacks keeps that pairing. |
| NavigationLemmas.ApplyKeepsCheckpointPaired | src/lib/components/navigation/composables/useNavigation.ts:124-168 | Each single operation keeps the index offset and its flag paired. |
| NavigationLemmas.StaleRestoreConsumesReopenedCheckpoint | src/lib/components/navigation/composables/useNavigation.ts:124-168 | A restore queued by closing the index still runs when the index was reopened before the frame. It scrolls to the new checkpoint and consumes it, so the next close-and-frame scrolls nowhere. |
| Navigation.CloseAllViews | src/lib/components/navigation/composables/useNavigation.ts:185-193 | Hides every view, clears the tag, sets `showIssue := prevShowIssue ?? showIssue` and empties `prevShowIssue`. It keeps the home slot and the scroll record. |
| Navigation.NavigateHome | src/lib/components/navigation/composables/useNavigation.ts:195-198 | Same nav record and slots as `closeAllViews`; in addition only `shouldRestore` is set in the scroll record. |
| Navigation.SetSelectedTag | src/lib/components/navigation/composables/useNavigation.ts:200-205 | Sets the tag and changes nothing else. |
| Navigation.ClearSelectedTag | src/lib/components/navigation/composables/useNavigation.ts:207-212 | Clears the tag and changes nothing else. |
| NavigationLemmas.SetThenClearTag | src/lib/components/navigation/composables/useNavigation.ts:200-212 | Setting a tag and then clearing it is the same as clearing it. |
| NavigationLemmas.TagSurvivesViewOps | src/lib/components/navigation/composables/useNavigation.ts:10-205 | After `setSelectedTag(t)`, any run of `toggleView`/`showView` calls keeps `t` selected. |
| Navigation.Apply | src/lib/components/navigation/composables/useNavigation.ts:10-212 | Only a frame callback produces an effect, and it produces at most one. |
| VisibilityRegistry.CreateSectionId | src/lib/stores/issueVisibilityRegistry.ts:2-6 | Pre-increments the counter and returns an id that differs from the id of every counter value up to the old one. |
| VisibilityRegistry.SectionIdTextInjective | src/lib/stores/issueVisibilityRegistry.ts:5 | Distinct counter values give distinct `issue-section-N` ids. |
| VisibilityRegistry.CreateIssueVisibilityHandle | src/lib/stores/issueVisibilityRegistry.ts:8-9 | A new handle takes the next id and keeps its own callback. The visible set is unchanged. |
| VisibilityRegistry.CreatedIdsDistinct | src/lib/stores/issueVisibilityRegistry.ts:2-9 | Handles created one after another have pairwise distinct ids, none of them used before. |
| VisibilityRegistry.MarkVisible | src/lib/stores/issueVisibilityRegistry.ts:18-20 | Adds the handle's id to the visible set and invokes no callback. |
| VisibilityRegistry.MarkVisibleIdempotent | src/lib/stores/issueVisibilityRegistry.ts:18-20 | Marking visible twice is marking visible once. |
| VisibilityRegistry.MaybeReset | src/lib/stores/issueVisibilityRegistry.ts:11-15 | Invokes the handle's callback exactly when no section is visible. |
| VisibilityRegistry.MarkHidden | src/lib/stores/issueVisibilityRegistry.ts:21-25 | Removes the id. The handle's own callback fires, and no other, exactly when the id was visible and the set is empty afterwards. A handle that was not visible changes nothing and fires nothing. |
| VisibilityRegistry.MarkVisibleThenHidden | src/lib/stores/issueVisibilityRegistry.ts:18-25 | For a handle not yet visible, showing and then hiding it restores the visible set, and fires its callback exactly when nothing else was visible. |
| VisibilityRegistry.Destroy | src/lib/stores/issueVisibilityRegistry.ts:26-30 | Has exactly the effect of `markHidden`. |
| VisibilityRegistry.ScenarioThreeSections | src/lib/stores/issueVisibilityRegistry.ts:8-31 | Three sections shown and then hidden in turn: only the last hide fires, and it fires the third handle's callback. |
| HoverImageStore.ToEntry | src/lib/stores/hoverImageStore.ts:29-50 | Rejects an article with an empty id or no cover url. Otherwise it gives scale `article.scale \|\| cover.scale \|\| 'medium'`, alt `cover.alt \|\| title \|\| 'Article cover'` and title `title \|\| 'Untitled'`. |
| HoverImageStore.KeyTextInjective | src/lib/stores/hoverImageStore.ts:58-60 | Two keys have the same `${source}:${articleId}` text only when they have the same source and article id, so keying by the pair is keying by the text. |
| HoverImageStore.HasPointerEntriesByText | src/lib/stores/hoverImageStore.ts:86-94 | Some key text starts with `pointer:` exactly when some entry comes from the pointer. |
| HoverImageStore.Put | src/lib/stores/hoverImageStore.ts:131 | `Map.set`: replaces an entry with the same key in place or appends it. The new entry is present afterwards, every entry under another key stays, nothing else appears, and keys stay unique. |
| HoverImageStore.RemoveKey | src/lib/stores/hoverImageStore.ts:146-169 | `Map.delete`: on a proper map, the result is the entries before the keyed one followed by those after it, so the survivors keep their order. Every other key stays, keys stay unique, and an absent key changes nothing. |
| HoverImageStore.BestIndex | src/lib/stores/hoverImageStore.ts:103-109 | The loop with strict `>` picks the first entry, in insertion order, whose weight no entry exceeds. |
| HoverImageStore.FindArticle | src/lib/stores/hoverImageStore.ts:111-113 | `find` by article id: the result is the first entry for that article, and no result means no entry has that article id. |
| HoverImageStore.SelectActive | src/lib/stores/hoverImageStore.ts:111-113 | A truthy preferred id that is present selects the first entry for that article; otherwise the first maximal-weight entry is selected. |
| HoverImageStore.Without | src/lib/stores/hoverImageStore.ts:63-67 | Removing an id keeps every other id in order and keeps the order repeat-free. |
| HoverImageStore.EnsureOrder | src/lib/stores/hoverImageStore.ts:62-78 | Moves the id to the most recent end and keeps the others in order. On overflow it evicts the oldest id and, when that id is non-empty, forgets its payload. The order stays repeat-free and within 12. |
| HoverImageStore.CurrentStack | src/lib/stores/hoverImageStore.ts:80-84 | The stack is no longer than the order, and every payload in it belongs to an ordered id. When every ordered id has a payload, the stack lists exactly those payloads in order. |
| HoverImageStore.CurrentStackAppend | src/lib/stores/hoverImageStore.ts:80-84 | The stack of a joined order is the joined stacks. With `CurrentStackSingle` (an id contributes its payload, or nothing when it has none), this pins down `map` followed by `filter(Boolean)` on every order. |
| HoverImageStore.CurrentStackSingle | src/lib/stores/hoverImageStore.ts:80-84 | A single id contributes its payload when it has one, and nothing otherwise. |
| HoverImageStore.ValidStack | src/lib/stores/hoverImageStore.ts:80-84 | On a valid store every ordered id has a payload, so the published stack is exactly the remembered payloads, oldest first. |
| HoverImageStore.Emit | src/lib/stores/hoverImageStore.ts:96-122 | With no entries it publishes nothing active over the current stack and changes nothing. Otherwise the selected entry's payload becomes active and `Activated` holds: the order is the old one without that id, minus its oldest id on overflow, with the id appended; the payload map loses exactly the evicted id, when non-empty, and maps the id to the active payload. The published stack is the current stack. On a valid store the result is valid and the stack is within 12. |
| HoverImageStore.Upsert | src/lib/stores/hoverImageStore.ts:124-134 | An article rejected by `toEntry` changes nothing and publishes nothing. Otherwise the entries become exactly `Map.set` of the new entry. The active payload is that of the article's first entry in the map, which may be an older entry from the other source. On a valid store, `Activated` holds for the article with that payload: exact new order and payload map. The published stack is the current one. |
| HoverImageStore.FirstEntryPayloadWins | src/lib/stores/hoverImageStore.ts:111-118 | Concretely, a viewport entry titled "Old" set before a pointer entry of the same article titled "New" is what becomes active and is remembered, since `find` returns the first entry. |
| HoverImageStore.ViewportWeight | src/lib/stores/hoverImageStore.ts:139 | A finite ratio is its own weight and a non-finite one weighs 0. |
| HoverImageStore.SetFromViewport | src/lib/stores/hoverImageStore.ts:138-141 | An article without id or cover url changes nothing. Otherwise the entries become exactly `Map.set` of the article's viewport entry weighed by the ratio (0 when not finite), so a re-reported ratio replaces the old one and entries under other keys stay; something is active, and a valid store stays valid. On a valid store that is this article, and `Activated` gives the exact new order and payload map. The published stack is the current one. |
| HoverImageStore.SetFromPointer | src/lib/stores/hoverImageStore.ts:142-144 | An article without id or cover url changes nothing. Otherwise the entries become exactly `Map.set` of the article's pointer entry of weight `+Infinity`, and entries under other keys stay; something is active, and a valid store stays valid. On a valid store that is this article, and `Activated` gives the exact new order and payload map. The published stack is the current one. |
| HoverImageStore.ClearFromSource | src/lib/stores/hoverImageStore.ts:146-166 | Clearing an absent keyed entry changes nothing and publishes nothing. A viewport clear leaves exactly `delete` of that key, survivors in order. A pointer clear leaves exactly the entries without the article, in order, or none when no pointer entry is left. Then `PublishesBest`: with none left, nothing active and order and payloads untouched; otherwise the first maximal-weight survivor becomes active with `Activated` holding for it. The key is gone and a valid store stays valid. |
| HoverImageStore.ClearBoth | src/lib/stores/hoverImageStore.ts:168-180 | When the article has neither entry it changes nothing and publishes nothing. The entries become exactly those without the article, in order, or none when it held a pointer entry and no other pointer entry is left. Whenever something was removed, `PublishesBest` holds: exact order and payloads after the best survivor is shown, or untouched ones when none is left. |
| HoverImageStore.ClearBothLeavesOthers | src/lib/stores/hoverImageStore.ts:168-180 | On a proper map, clearing an article leaves exactly the other articles' entries. The exception: when the article held a pointer entry and no other article has one, every entry is dropped. |
| HoverImageStore.Clear | src/lib/stores/hoverImageStore.ts:145-181 | Clearing never adds an entry. With the viewport source the entries become `delete` of that key. Without a source, or with the pointer source when present, they become the entries without the article, or none when no pointer entry is left. Clearing what is absent changes nothing, publishing nothing means nothing changed, and whatever is published satisfies `PublishesBest` against the old store. A valid store stays valid. |
| HoverImageStore.DropAll | src/lib/stores/hoverImageStore.ts:145-181 | Empties the entries and publishes nothing active over the unchanged stack. |
| HoverImageStore.Republish | src/lib/stores/hoverImageStore.ts:153-164 | The end of a clear: either every entry goes, nothing is active and order and payloads are untouched, or the given entries stay and the best of them is shown with `Activated` holding. Either way the stack is the current one, and validity carries over. |
| HoverImageStore.RemoveKeyExactly | src/lib/stores/hoverImageStore.ts:149 | In a proper map, `delete` removes exactly the entry with that key. |
| HoverImageStore.WithoutArticlePointers | src/lib/stores/hoverImageStore.ts:153-157 | After both of an article's keys are deleted, a pointer entry remains exactly when another article had one. |
| HoverImageStore.Reset | src/lib/stores/hoverImageStore.ts:182-187 | Empties entries, order and payloads and publishes `{active: null, stack: []}`. |
| HoverImageStore.ApplyOpPreserves | src/lib/stores/hoverImageStore.ts:26-144 | Every public operation keeps the store valid: unique keys, each entry's payload carrying the entry's article id, and a repeat-free order of at most 12 whose ids all have a payload. It also keeps pointer entries, and only those, at `+Infinity`. |
| HoverImageStore.PublishedStacksBounded | src/lib/stores/hoverImageStore.ts:26-78 | Across any sequence of operations from a valid store, every published stack holds at most 12 payloads. |
| HoverImageStore.PointerWins | src/lib/stores/hoverImageStore.ts:103-144 | Without a preferred id, the first pointer entry beats every viewport entry. |
| HoverImageStore.LargestRatioWins | src/lib/stores/hoverImageStore.ts:103-141 | Without a preferred id (the publication after a clear), with viewport entries only, the active entry has the largest ratio and is the first such entry. After `setFromViewport` the reported article is active whatever its ratio. |
| HoverImageStore.PointerArticleBecomesActive | src/lib/stores/hoverImageStore.ts:124-144 | On a valid store, `setFromPointer` on an article with an id and a cover url makes that article active and the most recent in the stack order. |
| HoverImageStore.ClearLastPointer | src/lib/stores/hoverImageStore.ts:153-161 | Clearing the only article with pointer entries drops every entry and publishes nothing active over the unchanged stack. |
| HoverRecency.LatestShownAppend | src/lib/stores/hoverImageStore.ts:62-70 | Showing a payload last moves its article to the end of the latest-per-article list, with that payload, and keeps the others in order. |
| HoverRecency.LastStep | src/lib/stores/hoverImageStore.ts:70-77 | Cutting the whole latest-per-article list to 12 after a showing equals cutting the previous cut the way `ensureOrder` does: drop the article, drop the oldest on overflow, append. |
| HoverRecency.ActivatedMatches | src/lib/stores/hoverImageStore.ts:62-78 | When the order and payloads follow the reference list of shown payloads, one `Activated` step follows the reference with the new payload appended. |
| HoverRecency.OpRecency | src/lib/stores/hoverImageStore.ts:96-187 | Each public operation, on a valid store, either resets to the empty store, or makes a payload active with `Activated` holding for its article, or leaves order and payloads unchanged; whatever it publishes carries the current stack. |
| HoverRecency.StepMatches | src/lib/stores/hoverImageStore.ts:26-187 | One public operation keeps the store following the reference history: a reset empties it and a newly active payload is appended. |
| HoverRecency.StacksAreRecent | src/lib/stores/hoverImageStore.ts:26-187 | From any valid store that follows a history, every stack a run of operations publishes is the reference stack of the history at that point. |
| HoverRecency.PublishedStacksAreRecent | src/lib/stores/hoverImageStore.ts:26-187 | From the empty store, every published stack equals the independent reference: among the payloads made active since the last reset, the latest one of each article, oldest first, the 12 most recent of those. |
| Articles.Insert | src/lib/components/navigation/composables/useArticles.ts:21-30 | Adding a tag to an ascending repeat-free list keeps it ascending and repeat-free, with the tag added. |
| Articles.GetUniqueTags | src/lib/components/navigation/composables/useArticles.ts:11-31 | Missing or empty input gives `[]`. Otherwise the result is strictly ascending and holds exactly the trims of the tags whose trim is non-empty. |
| Articles.UniqueTagsWellFormed | src/lib/components/navigation/composables/useArticles.ts:21-30 | The result is sorted, has no repeats, and every element is trimmed and non-empty. |
| Articles.UniqueTagsComplete | src/lib/components/navigation/composables/useArticles.ts:16-28 | Every article tag whose trim is non-empty contributes that trim. |
| Articles.UniqueTagsSound | src/lib/components/navigation/composables/useArticles.ts:16-28 | Every listed tag is the trim of some article tag. |
| Articles.AllTagsMembership | src/lib/components/navigation/composables/useArticles.ts:16-20 | A string is among the flattened tags exactly when it is a tag of some article of some issue. |
| Articles.HandleArticleHover | src/lib/components/navigation/composables/useArticles.ts:36-38 | The hovered article becomes the one passed in. |
| Articles.HandleArticleLeave | src/lib/components/navigation/composables/useArticles.ts:40-42 | Nothing is hovered afterwards. |
| Articles.HoverLastWins | src/lib/components/navigation/composables/useArticles.ts:33-50 | The cell holds the last article hovered, and leaving returns it to the initial state. |
| Common.Trim | src/lib/components/navigation/composables/useArticles.ts:21-22 | The result is no longer than the input and neither starts nor ends with whitespace. |
| Common.TrimIsWhitespaceFrame | src/lib/components/navigation/composables/useArticles.ts:21-22 | Trimming only removes whitespace: the input is whitespace, then the trim, then whitespace. |
| Common.TrimFixpoint | src/lib/components/navigation/composables/useArticles.ts:21-22 | A string is its own trim exactly when it neither starts nor ends with whitespace. |
| Common.DecimalInjective | src/lib/stores/issueVisibilityRegistry.ts:5 | Distinct counters render to distinct decimal strings. |
| Common.LessTransitive | src/lib/components/navigation/composables/useArticles.ts:30 | The code-point order used by the default sort is transitive. |
| Common.LessTotal | src/lib/components/navigation/composables/useArticles.ts:30 | Any two distinct strings are ordered one way or the other. |
| Seo.CreateSEOData | src/lib/seo.ts:6-26 | Every field given overrides the default and every other field is the `defaultSEO` constant. |
| Seo.CreateSEODataExtremes | src/lib/seo.ts:6-26 | Nothing given yields `defaultSEO`; everything given yields the argument itself. |
| Seo.CreateSEODataIdempotent | src/lib/seo.ts:21-26 | Merging a merged result again changes nothing. |
| Seo.RemoveSpecial | src/lib/seo.ts:51 | Only word characters, whitespace and `-` remain. A single character is kept exactly when it is one of those, and dropped otherwise. |
| Seo.RemoveSpecialAppend | src/lib/seo.ts:51 | Removal distributes over concatenation. With the single-character case, the result is exactly the kept characters of the input, in order. |
| Seo.LowerAscii | src/lib/seo.ts:50 | Same length; each upper-case ASCII letter becomes its lower-case letter and every other character is unchanged; no upper-case letter remains. |
| Seo.ReplaceRuns | src/lib/seo.ts:52-53 | The result is empty exactly when the input is, and it starts with `-` where the input starts with a run. |
| Seo.RunBecomesOneDash | src/lib/seo.ts:52-53 | Each maximal run becomes exactly one `-`: splitting the input around a maximal run splits the output around a single dash. |
| Seo.CollapsedHasNoDoubleHyphen | src/lib/seo.ts:53 | After collapsing hyphen runs, no two hyphens are adjacent. |
| Seo.ReplaceRunsIdentity | src/lib/seo.ts:52-53 | A string whose runs are already single dashes is unchanged. |
| Seo.StripHyphens | src/lib/seo.ts:55 | The input is a run of `-`, then the result, then a run of `-`, and the result neither starts nor ends with `-`: exactly the edge runs are removed. Slug characters and the no-`--` property carry over. |
| Seo.CreateSlug | src/lib/seo.ts:48-56 | The slug has only `a`-`z`, `0`-`9`, `_` and `-`, no `--`, and no `-` at either end. |
| Seo.SlugFixpoint | src/lib/seo.ts:48-56 | A string that is already a slug is its own slug. |
| Seo.CreateSlugIdempotent | src/lib/seo.ts:48-56 | `createSlug(createSlug(s)) == createSlug(s)`. |
| Seo.CreateSlugLowers | src/lib/seo.ts:50 | Lower-casing a title first does not change its slug, so titles that differ only in ASCII letter case share a slug. |
| Seo.WordsJoinedByDash | src/lib/seo.ts:52 | Two slug words separated by any whitespace run come out joined by exactly one `-`, as in `hello   world` → `hello-world`. |
| Seo.TruncateDescription | src/lib/seo.ts:68-72 | A description within the limit is returned as is. A longer one ends with `...` after a trimmed head of at most `maxLength - 3` characters (0 when that is negative), so it fits the limit whenever the limit is at least 3. |
| Seo.TruncatedPartOfOriginal | src/lib/seo.ts:71 | The kept head is a contiguous stretch of the original. Only whitespace precedes it, and within the cut prefix only whitespace follows it. |
| Seo.TruncateIdempotent | src/lib/seo.ts:68-72 | For a limit of at least 3, truncating twice is truncating once. |
| Seo.TruncateDescriptionDefault | src/lib/seo.ts:68 | With the default limit of 160, the result never exceeds 160 characters, and a description within the limit is returned as is. |

## Left out

- Browser effects. `window.scrollTo`, `window.scrollY` and `requestAnimationFrame` timing become an environment parameter, an effect list and an explicit queue. When a frame fires is the caller's choice, made by applying `RunPendingOp` or `RunFrame`.
- Svelte `writable`/`update`/`subscribe` and the `$state` rune are modelled as plain value replacement, with no subscriber notification.
- `navStore.ts` declares an initial record without `activeViews` or `selectedTag`. The model assumes a fully populated record, as the controller dereferences both.
- The home scroll memory (`homeScrollY`, and `shouldRestore` apart from `navigateHome` setting it) is written by page components that are not part of this model. `showHomeView` in the code never reads or writes it, and the model follows that.
- `createArticleSEO` reads the clock through `new Date()`, and `formatSEODate` wraps `Date.toISOString`. Neither is modelled.
- The `SEOData` type declaration is not part of this model. `Seo.SEOData` carries the fields `seo.ts` names: the eight defaulted ones plus the optional `image` and `publishedTime`.
- A field passed explicitly as `undefined` to `createSEOData` overrides the default with `undefined` in JavaScript. The model has no such value: a field is either given or absent.
- Floating point. Viewport weights are modelled as `Finite(real) | PosInf`, and a non-finite ratio arrives as `NonFinite`, so NaN comparisons are not modelled.
- HoverImageStore.Upsert: the claim that the active payload belongs to the upserted article is stated only for a store satisfying `Valid`, the invariant every operation keeps. On a store built by hand with a payload filed under another article's entry, `find` can return that payload.
- Absent optional article fields (`scale`, `cover.scale`, `cover.alt`, `title`) are modelled as the empty string. JavaScript `||` treats both the same, so the defaults agree. Non-string ids and the `null` article are not modelled.
- Seo.TruncateDescription: lengths are counted in Unicode scalar values, while JavaScript `.length` and `substring` count UTF-16 code units. For text outside the Basic Multilingual Plane the two differ: 100 copies of "😀" (200 code units) exceed a limit of 160 in JavaScript and get cut, possibly inside a surrogate pair, but fit in the model.
- Seo.TruncateDescriptionDefault: the same UTF-16 difference as `Seo.TruncateDescription`; the limit of 160 is counted in scalar values, not code units.
- Unicode. Lower-casing is ASCII only. The whitespace of `trim` and `\s` is the ASCII table (space, tab, line feed, carriage return, vertical tab, form feed). The regex engine is replaced by the equivalent functions.
- `Array.prototype.sort` compares UTF-16 code units. `Common.Less` compares characters as Dafny code points, which agrees on the Basic Multilingual Plane.
- `draughtAdapter.ts`, the route `+layout.server.ts` loaders and the `index.ts` re-export files are fetch/cache wrappers and re-exports. `draughtSchema.ts` only declares types; its `Issue`/`Article` shapes appear as datatypes where needed.
- NavigationLemmas.IndexRoundTrip: the model holds one `useNavigation()` instance. Each call of `useNavigation()` creates its own `prevShowIssue` and `prevShowIssueForHome` (useNavigation.ts:6-8), while the nav and scroll stores are shared. The round trip holds only when the same instance opens and closes the index; slots of other instances are not modelled.
- NavigationLemmas.HomeRoundTrip: the same single-instance assumption as `NavigationLemmas.IndexRoundTrip`; opening home through one instance and closing it through another uses two different home slots, which the model does not have.
- JavaScript numbers are modelled as unbounded `int` and `nat`. Three places where that matters follow.
- VisibilityRegistry.CreatedIdsDistinct: `++nextSectionId` on a double stops growing at 2^53, after which ids repeat. The model's counter is unbounded, so distinctness is proved only as if fewer than 2^53 sections were ever created.
- Navigation.ToggleIndex: `window.scrollY` can be fractional; `Env.scrollY` is an `int`, so only whole-pixel offsets are modelled.
- Seo.TruncateDescription: `maxLength` is an `int`. A fractional `maxLength` compares with the length as a real number and `substring` truncates `maxLength - 3`; that case is not modelled.
- The registry's callbacks are identified by a number instead of being run. What a callback does is outside the registry.
