# anthropic-status-bot, modelled in Dafny

This project models the core of a Discord bot that watches a Statuspage-style
status page. The core is the `StatusChecker` class, which reads the page on a
timer and reports what changed. Five parts are covered:

- **Extraction.** Rules that turn the page into a *snapshot*: the overall
  description and level, the allow-listed components, and the incidents with
  their updates.
- **Differ.** Compares the previous snapshot with the current one and emits
  typed *change events*: `status_change`, `component_update`, `new_incident`,
  `incident_update`, `incident_resolved`.
- **Dedup cache.** An insertion-ordered map of recently reported messages. It
  suppresses repeated status and component events.
- **Checker state machine.** The uninitialised, initial and later checks, plus
  a failed fetch.
- **Embed helpers.** The pure text and ordering helpers that render a
  snapshot or an incident as a Discord embed.

Everything is pure. The page is an abstract document holding the texts the
CSS selectors pick out. The clock is a `Clock(millis, iso, year)` value read
once per check. The checker's mutable fields are an explicit `Checker` record
that each check returns in a new version.

Files:

| file | module | what it holds |
|---|---|---|
| `text.dfy` | `Options`, `TextUtil` | The `Option` type. JavaScript string helpers: `trim`, `toLowerCase`, `includes`, `indexOf`, `replace` with a string pattern, `split`, `join`, `toString` of a number. |
| `entries.dfy` | `Entries` | An insertion-ordered map as a sequence of pairs. It stands for a plain object's entries and for a `Map`. |
| `types.dfy` | `StatusTypes` | Snapshots, incidents, updates and change events. |
| `extraction.dfy` | `Extraction` | `#parseOverallStatus` through `#parseTimestamp`, and the body of `fetchStatus`. |
| `dedup.dfy` | `Dedup` | `#isDuplicate`. |
| `differ.dfy` | `Differ` | `#compareStates`, `#compareComponents`, `#compareIncidents`. |
| `checker.dfy` | `Checker` | `checkForUpdates`, `getCurrentState`, `#formatComponentStatuses`. |
| `embeds.dfy` | `Embeds` | `STATUS_COLORS`, `formatName`, `formatStatus`, `getStatusDot`, and the two embed builders. |

How the differ is written:

- The source interleaves `#isDuplicate` calls with pushing events. The model
  splits this into three stages:
  1. the status and component *candidates*;
  2. those candidates passed through the cache in order (`Suppress`);
  3. the incident events, which are never deduplicated.
- The result is the same list, and the cache goes through the same calls in
  the same order.

Three behaviours of the program that are easy to misread:

- **Sweep trigger.** The comment at `src/statusChecker.js:270` says the
  clean-up runs "every 100 checks". What the code does is sweep on every
  `#isDuplicate` call that finds the size a non-zero multiple of 100. A
  duplicate verdict inserts nothing, so several calls in a row can each find
  the same size and each sweep. A sweep that removes entries changes the size,
  and the next sweep then waits for the size to reach a multiple of 100 again.
- **Default incident status.** An incident's status falls back to
  `investigating` when it has no updates, and also when its first update has
  an empty status (`|| 'investigating'`).
- **Level with no description.** The overall level comes from the class
  attribute alone; a missing description does not force `operational`.
  `Extraction.ParseOverallStatus` states that the level is `operational` when
  the attribute is missing.

## Model

| member | source | states |
|---|---|---|
| Extraction.DetermineStatusLevel | src/statusChecker.js:115-126 | The level is `degraded` exactly when the class mentions `degraded`. It is `outage` exactly when it mentions `outage` but not `degraded`, and `maintenance` exactly when it mentions neither of those but mentions `maintenance`. Otherwise it is `operational`. So first match in the listed order wins. |
| Extraction.DetermineImpactLevel | src/statusChecker.js:177-188 | The same first-match characterisation for `impact-minor`, `impact-major`, `impact-critical`, defaulting to `none`. |
| Extraction.FirstHit | src/statusChecker.js:122-125 | The position found is one whose needle occurs, and no earlier needle occurs. No position means no needle occurs. |
| Extraction.ParseOverallStatus | src/statusChecker.js:105-113 | A blank trimmed description becomes `All Systems Operational`, otherwise it is the trimmed text, so it is never empty. The level is the classification of the class attribute, and `operational` when the attribute is missing. |
| Extraction.ParseComponents | src/statusChecker.js:130-142 | Each name appears at most once. Every name is on the allow-list. Every entry carries the single timestamp of the read. |
| Extraction.ParseComponentsFind | src/statusChecker.js:133-143 | A name reads back exactly when it is allow-listed and some container carries it. Its status is then the trimmed status of the LAST such container, because later containers overwrite earlier ones. |
| Extraction.ParseComponentsOrder | src/statusChecker.js:133-143 | Every key is the trimmed name of some container, and the keys come in the order of each name's first container. A later container with a known name overwrites its status in place and does not move it. |
| Extraction.DateMonth | src/statusChecker.js:210 | The month is the leading run of the trimmed `small` text up to its first space. It holds no space and is followed by a space or by the end. |
| Extraction.DateYear | src/statusChecker.js:213 | The year is the trimmed year text. When that is blank it is the decimal current year, so it is never empty. |
| Extraction.ExtractDateInfo | src/statusChecker.js:208-216 | The date string is the month, a space, the day, a comma and a space, the year, a space and the time. |
| Extraction.DateInfoParts | src/statusChecker.js:208-216 | The date string splits on spaces back into the month, the day with its comma, the year and the time, whenever those texts hold no inner space. |
| Extraction.ParseTimestamp | src/statusChecker.js:218-225 | The timestamp is the parse of `"{date} PST"` when that is a valid date, and the current instant otherwise. |
| Extraction.ParseUpdates | src/statusChecker.js:190-206 | There is one update per block, in order. The status is the lowercased trimmed `strong` text, so it holds no capital letter. The message is the trimmed message text. The timestamp is the parse of the block's date string, or the current instant when that does not parse. |
| Extraction.IncidentId | src/statusChecker.js:169 | The id is the last `/`-segment of the link when that is present and non-empty, otherwise the decimal clock in milliseconds. It is never empty and holds no `/`. |
| Extraction.IncidentIdOfPermalink | src/statusChecker.js:169 | A permalink `path/seg` gives the id `seg`. |
| Extraction.ParseIncident | src/statusChecker.js:164-175 | The id is the last `/`-separated part of the permalink, or the current millisecond count as text when there is no link or that part is empty. The name is the trimmed link text and the impact is the classification of the title class. The updates are the parsed update blocks. The status is the lowercased trimmed `strong` text of the first block when that is non-empty, and `investigating` when there is no block or that text is empty. |
| Extraction.ParseIncidentsFlat | src/statusChecker.js:148-162 | Incidents correspond one to one, in order, with the incident containers of all day groups taken in document order. |
| Extraction.IncidentWithoutPermalinkMoves | src/statusChecker.js:169 | Without a link, reads at two different milliseconds give two different ids. |
| Extraction.ParseIncidents | src/statusChecker.js:148-162 | There is one incident per incident container, counted over all day groups. |
| Extraction.IncidentsIgnoreClock | src/statusChecker.js:148-175 | When every incident has a permalink, two reads of one page agree position by position on id, status and number of updates. |
| Extraction.ComponentIgnoresClock | src/statusChecker.js:128-146 | Two reads of one page give each component the same status. Only the timestamp differs. |
| Extraction.ExtractSnapshot | src/statusChecker.js:88-93 | The snapshot of a loaded page holds the parsed overall status, the parsed allow-listed components, the parsed incidents and the read instant. Its component names are distinct and allow-listed. |
| Dedup.Expire | src/statusChecker.js:272-277 | An entry is kept exactly when it is not older than the cutoff, and keys stay distinct. A one-entry cache keeps its entry exactly when it is not older than the cutoff. |
| Dedup.ExpireAppend | src/statusChecker.js:273-277 | Deleting while iterating keeps the survivors in insertion order: expiring a concatenation expires each part in turn. |
| Dedup.Sweep | src/statusChecker.js:271-278 | Nothing changes unless the size is a non-zero multiple of 100. When it is, the result is the expiry at `now - 60000`: exactly the strictly older entries go, and the rest keep their order. |
| Dedup.SweptSizeBound | src/statusChecker.js:271 | A size at which a sweep is due and that fits the cap is at most 1000. |
| Dedup.Key | src/statusChecker.js:267 | The key is the message, a dash, then the timestamp. |
| Dedup.KeyOfSameTimestamp | src/statusChecker.js:267 | Two messages with the same timestamp share a key only when they are the same text. |
| Dedup.KeyAmbiguity | src/statusChecker.js:267 | The dash is not escaped: `a-b` at `c` and `a` at `b-c` share a key. |
| Dedup.Evict | src/statusChecker.js:281-284 | Above 1000 entries exactly the first entry is dropped, and the rest keep their order. Otherwise nothing changes. |
| Dedup.EvictRemovesOldest | src/statusChecker.js:281-284 | Eviction removes the oldest-inserted key and keeps every other key. |
| Dedup.Kept | src/statusChecker.js:270-284 | The entries left are the cache, or its expiry at `now - 60000` when a sweep is due, then without its first entry if more than 1000 remain. They are a subset of the cache with distinct keys, and a cache of at most 1001 entries is left with at most 1000. |
| Dedup.IsDuplicate | src/statusChecker.js:266-294 | The verdict is duplicate exactly when the key `message-timestamp` is among the entries kept after the sweep and the cap. A duplicate leaves those entries as they are. Otherwise the key is appended at `now`. A valid cache (distinct keys, at most 1001 entries) stays valid. |
| Dedup.YoungEntrySurvives | src/statusChecker.js:270-284 | An entry inside the 60-second window survives any call while the cache holds at most 1000 entries. |
| Dedup.DuplicateKeepsInstant | src/statusChecker.js:287-289 | A duplicate verdict does not refresh the recorded instant. |
| Dedup.OnlyOwnKeyAdded | src/statusChecker.js:291-292 | A call records no key but its own. |
| Dedup.QuietVerdict | src/statusChecker.js:286-289 | When no sweep or eviction is due, the verdict is exactly whether the key was already recorded. |
| Dedup.NewestSurvives | src/statusChecker.js:270-284 | The latest recorded key survives the next sweep and cap while it is inside the 60-second window. |
| Dedup.RepeatIsDuplicate | src/statusChecker.js:266-294 | A new message is reported. The same message again within 60 seconds is suppressed, and its first instant stays recorded. |
| Dedup.ExpiredIsNotDuplicate | src/statusChecker.js:270-278 | Once its entry is older than the window and a sweep is due, the message is reported again. |
| Differ.ComponentCandidates | src/statusChecker.js:317-332 | A `component_update` candidate exists for a current component exactly when it is missing from the previous snapshot or its status text differs. There are no others, so components that disappear produce nothing. |
| Differ.ComponentCandidatesAppend | src/statusChecker.js:318 | Component events follow the order of the current components. |
| Differ.UnchangedComponentsQuiet | src/statusChecker.js:319-320 | Components whose status is unchanged produce no event. |
| Differ.StatusCandidates | src/statusChecker.js:299-311 | The candidates are a `status_change` for the current description and level when the description text changed, and nothing for it otherwise, followed by the component candidates. Every candidate is of a kind the cache applies to. |
| Differ.Suppress | src/statusChecker.js:296-332 | The events kept are a subset of the candidates. The cache stays valid. With no candidates the cache is not touched. |
| Differ.SuppressOne | src/statusChecker.js:301-308 | A single candidate is kept exactly when `#isDuplicate` does not report it as a duplicate, and the cache afterwards is the one that call leaves. |
| Differ.SuppressAppend | src/statusChecker.js:296-332 | The candidates go through the cache one after another: filtering a concatenation filters the first part, then the second part against the cache the first part left. |
| Differ.SuppressAt | src/statusChecker.js:322-329 | The candidate at any position is kept exactly when `#isDuplicate`, called on the cache the earlier candidates left, does not report it. The candidates before it and after it are filtered as they would be on their own. |
| Differ.SuppressKeepsFresh | src/statusChecker.js:296-332 | Candidates never seen before, with pairwise different keys, all get through. |
| Differ.FreshStep | src/statusChecker.js:266-294 | The first fresh candidate is reported, and the others stay fresh afterwards. |
| Differ.NewOrUpdated | src/statusChecker.js:341-354 | `new_incident` is emitted for a current incident exactly when its id is not among the previous ids. `incident_update` is emitted exactly when the id is known and the status or the update count differs from the first previous incident with that id. |
| Differ.NewOrUpdatedAppend | src/statusChecker.js:341 | New and updated incidents follow the order of the current list. |
| Differ.UniqueIds | src/statusChecker.js:338-357 | Iterating a `Set` of ids gives each id once, in order of first occurrence. |
| Differ.Gone | src/statusChecker.js:357-358 | The ids reported as gone are exactly the previous ids absent from the current ids, each once. |
| Differ.ResolvedEvents | src/statusChecker.js:357-374 | There is one resolved event per gone id, built from the first previous incident with that id. |
| Differ.ResolvedExactlyOnce | src/statusChecker.js:357-374 | Every disappeared id yields exactly one resolved event, and no two resolved events share an id. |
| Differ.ResolvedOnlyGone | src/statusChecker.js:358 | Every resolved event is for an id that was previous and is not current. |
| Differ.ResolvedCopy | src/statusChecker.js:361-371 | The resolved copy keeps id, name and impact, has status `resolved`, and has one more update. That update is `resolved` / `Incident resolved` at the check instant, in front of the unchanged old updates. |
| Differ.ResolvedInPreviousOrder | src/statusChecker.js:357-372 | The resolved events come in the order in which their ids first occur in the previous list, and every such id is a previous id. |
| Differ.GoneKeepsOrder | src/statusChecker.js:357-358 | Dropping the ids still current keeps the remaining ids in order. |
| Differ.IncidentEvents | src/statusChecker.js:334-375 | An empty current incident list yields no incident events at all. Otherwise the incident events are the new or updated incidents, followed by the resolved ones. |
| Differ.NoIncidentsNoIncidentEvents | src/statusChecker.js:335 | With no current incidents, previously open incidents are not resolved. The only events are status and component events. |
| Differ.CompareStates | src/statusChecker.js:296-315 | The events are the status and component candidates that got through the cache, followed by the incident events. The result is `null` exactly when that list is empty. The cache afterwards is the one filtering the candidates leaves, and it stays valid. |
| Differ.IncidentEventReported | src/statusChecker.js:312-314 | Every incident event is among the reported events, whatever the cache holds. |
| Differ.NewIncidentReported | src/statusChecker.js:341-345 | While the current list is not empty, an incident whose id was not there before is reported as `new_incident`. |
| Differ.GoneIncidentReported | src/statusChecker.js:357-374 | While the current list is not empty, a previous id that is no longer current is reported as `incident_resolved`, built from the first previous incident with that id at the check instant. |
| Differ.EventOrder | src/statusChecker.js:296-375 | Events come in the order: status change, then component updates, then new or updated incidents, then resolved incidents. |
| Differ.FreshDiffReportsAll | src/statusChecker.js:296-315 | With a cache that has seen none of the candidates, the result is all candidates followed by the incident events, or `null` when there are none. |
| Differ.DescriptionChangeReported | src/statusChecker.js:299-309 | A changed description whose message is not yet recorded is the first event, carrying the current level. |
| Differ.StatusChangeNeedsNewDescription | src/statusChecker.js:299 | No status change is reported while the description text is the same. |
| Differ.DuplicateStatusDropped | src/statusChecker.js:299-309 | A changed description whose key `#isDuplicate` finds among the entries it keeps is not reported: no status change is among the events. |
| Differ.NothingNewOrUpdated | src/statusChecker.js:341-354 | No incident event is emitted when every current incident matches the first previous incident with its id. |
| Differ.AlikeDiffIsNull | src/statusChecker.js:296-375 | Snapshots that agree on the description, each component's status, and each incident's id, status and update count compare to `null` and leave the cache untouched, whatever their timestamps and texts. |
| Differ.SelfDiffIsNull | src/statusChecker.js:296-375 | Comparing a snapshot with itself gives `null` and makes no cache call, provided incidents sharing an id agree. |
| Differ.SelfDiffOfCollidingIds | src/statusChecker.js:342-353 | Without that proviso the self-comparison is not `null`. Two incidents with one id and different statuses make the second look like an update of the first. |
| Differ.RenamedIncidentChurns | src/statusChecker.js:341-374 | A lone incident whose id changed is reported both as new and, under its old id, as resolved. |
| Checker.FormatComponentStatuses | src/statusChecker.js:260-264 | The text is empty exactly when there are no components, and it starts with the first component's `name: status` line. |
| Checker.Init | src/statusChecker.js:16-19 | A new checker has no snapshot and an empty cache, and satisfies the invariant every reachable state keeps. |
| Checker.InitialMessage | src/statusChecker.js:249 | The `initial` message is the banner line, the `Current Status:` line, then the component lines. |
| Checker.InitialMessageLines | src/statusChecker.js:247-251 | Split on newlines, the `initial` message gives the banner, the status line, and one `name: status` line per component, when no description, name or status holds a newline. |
| Checker.ComponentStatusLines | src/statusChecker.js:260-264 | Splitting the text on newlines gives back one `name: status` line per component, in order, when no name or status holds a newline. |
| Checker.GetCurrentState | src/statusChecker.js:227-229 | In every reachable state the current snapshot is the one the next diff starts from. |
| Checker.CheckForUpdates | src/statusChecker.js:231-258 | A failed fetch is silent and changes nothing. A successful fetch stores the new snapshot as both previous and current. The first success gives the `initial` report with its message and timestamp and leaves the cache untouched. A change report needs a previous snapshot and is never empty. |
| Checker.CheckPreservesInv | src/statusChecker.js:231-258 | Every check keeps the invariant: previous and current snapshot are the same, the cache is valid, and the snapshot is well formed. |
| Checker.FailedFetchIsInvisible | src/statusChecker.js:232-237 | A failed fetch before a check changes nothing that check reports or keeps. |
| Checker.LaterCheckDiffs | src/statusChecker.js:254-257 | A later check reports exactly the differ's result between the snapshot held and the new one, and keeps the differ's cache. |
| Checker.ComponentReadingsAlike | src/statusChecker.js:128-146 | Two reads of one page show no component change between them. |
| Checker.UnchangedPageIsSilent | src/statusChecker.js:231-258 | Reading an unchanged page again at any later instant is silent and leaves the cache alone, when every incident has a permalink and incidents sharing one agree. |
| Checker.PermalinkFreeIncidentChurns | src/statusChecker.js:164-175 | When a page's only incident has no permalink, re-reading the unchanged page at another millisecond reports it as new and its earlier reading as resolved. |
| Embeds.ColorOr | src/utils/embedUtils.js:3-9 | The colour is the table's entry for the key, or grey `0x95A5A6` when the key is not in the table. |
| Embeds.LevelColor | src/utils/embedUtils.js:20 | Every status level has its own colour in the table, so the status embed is never grey. |
| Embeds.ImpactColor | src/utils/embedUtils.js:51 | No impact name is a key of the table, so the incident colour is always the grey default. |
| Embeds.FormatName | src/utils/embedUtils.js:11 | A formatted name has no capital letter. Without `- beta features` in the lowercased name it is just the lowercased name; with it, its first occurrence in the lowercased name is replaced by ` (beta)` and the rest is kept. |
| Embeds.FormatNameBetaSuffix | src/utils/embedUtils.js:11 | A dash-free name followed by ` - Beta Features` formats as its lowercase followed by `  (beta)`, with two spaces. |
| Embeds.FormatStatus | src/utils/embedUtils.js:12 | Capitals become the matching lower-case letters, every other character stays, and the length is kept. |
| Embeds.StatusDot | src/utils/embedUtils.js:13 | The dot is the filled or the hollow circle. |
| Embeds.StatusDotIff | src/utils/embedUtils.js:13 | The dot is filled exactly when `operational`, `maintenance` or `resolved` occurs in the text. |
| Embeds.LevelDot | src/utils/embedUtils.js:13-18 | The overall dot is filled exactly for the operational and maintenance levels. |
| Embeds.CapitalisedStatusIsHollow | src/utils/embedUtils.js:13-24 | The match is case-sensitive: `Operational` gets the hollow dot and `operational` the filled one. |
| Embeds.Unresolved | src/utils/embedUtils.js:31-32 | An incident is kept exactly when its status is not `resolved`. A one-incident list is kept exactly when that incident is not resolved. |
| Embeds.UnresolvedAppend | src/utils/embedUtils.js:31-32 | The filter keeps order and repeats: filtering a concatenation filters each part in turn. |
| Embeds.ActiveIncidents | src/utils/embedUtils.js:31-36 | The active list holds exactly the unresolved incidents, as a permutation, ordered by non-increasing priority: critical 3, major 2, minor 1, none 0. |
| Embeds.ActiveIncidentsStable | src/utils/embedUtils.js:31-36 | Ties keep source order: the active incidents of each priority are exactly the unresolved incidents of that priority, in the order of the input list. |
| Embeds.SortIsStable | src/utils/embedUtils.js:33-36 | The insertion sort keeps, for each priority, the input's order of the incidents of that priority. |
| Embeds.SortIsLayered | src/utils/embedUtils.js:33-36 | The sort equals the reference layering: incidents of priority 3, then 2, then 1, then 0, each in input order. |
| Embeds.SortByPriority | src/utils/embedUtils.js:33-36 | The sort is a permutation of its input. |
| Embeds.LayeredSorted | src/utils/embedUtils.js:33-36 | The reference layering is ordered by non-increasing priority. |
| Embeds.ComponentText | src/utils/embedUtils.js:23-25 | The component text is empty exactly when there are no components. |
| Embeds.StatusEmbedFields | src/utils/embedUtils.js:23-43 | The status embed's fields are `components` when there are components, then `active incidents` when some incident is not resolved, and nothing else. |
| Embeds.StatusEmbedLook | src/utils/embedUtils.js:18-20 | The status embed shows the level's own colour, and its dot is filled exactly for operational and maintenance. |
| Embeds.StatusEmbed | src/utils/embedUtils.js:15-21 | The status embed is titled `anthropic status` with footer `last updated`. Its description is the level's dot, a space and the lowercased overall description. |
| Embeds.IncidentEmbedFields | src/utils/embedUtils.js:51-68 | The incident embed is grey, and has the `updates` field exactly when the incident has updates. |
| Embeds.IncidentEmbed | src/utils/embedUtils.js:48-68 | The incident embed is titled with the lowercased incident name and has no footer. Its description is the `impact:` line with the lowercased impact, the status dot with the `status:` line, an empty line and `timeline:`. Its only possible field is `updates`, present exactly when the incident has updates, holding the update lines. |
| Embeds.IncidentDescriptionLines | src/utils/embedUtils.js:54-58 | Split on newlines, the incident description gives exactly the impact line, the status line, an empty line and `timeline:`, when the status holds no newline. |
| TextUtil.SplitJoin | src/statusChecker.js:260-264 | Splitting a join on a separator that no part contains gives back the parts. |

## Left out

- HTTP fetch and retry (`fetchStatus` lines 75-103, client set-up lines 22-45): network I/O and library behaviour. A fetch is a parameter that holds either a loaded document or nothing.
- cheerio loading and CSS selectors: the page is an abstract document holding the texts and attributes the selectors pick out. Whitespace normalisation and entity decoding by the HTML parser are not modelled.
- `#parseTimestamp`'s date parsing: JavaScript `Date` parsing of `"... PST"` is an injected partial function (`DateParser`). Only the fallback to the current instant is modelled.
- Wall-clock reads: one `Clock(millis, iso, year)` is read once per check. The source reads the clock several times within a check, so timestamps that could differ by a millisecond there are equal here.
- `toLowerCase`: only ASCII letters are mapped. Other Unicode case mappings are not modelled.
- JavaScript object keys: component names are kept in insertion order. The order exceptions of integer-like keys, and the special meaning of names such as `__proto__`, are not modelled.
- Logging (logger calls in lines 81, 95-100, 235, 243-246): output only.
- `toLocaleString` of update dates and `setTimestamp`: the date format is a parameter, and the embed timestamp is not modelled.
- Embeds.StatusEmbed: the texts of the `components` and `active incidents` fields are stated by their definitions only; the contracts cover the title, footer, description, colour and which fields exist.
- Embeds.FormatNameBetaSuffix: proved for names without a `-`. An earlier `- beta features` inside the name would take the replacement instead.
- Checker.GetCurrentState: stated for reachable states (`Inv`) only.
- Extraction.DateInfoParts: the split back into parts is stated for day, time and year texts without inner spaces. With inner spaces the split does not give back the parts.
- Extraction.ParseComponents: its own contract states the keys, the allow-list and the timestamp. Which status each name has is stated by `Extraction.ParseComponentsFind`, and the key order by `Extraction.ParseComponentsOrder`.
- Differ.Suppress: its own contract states the subset, validity and the empty case. What happens to each candidate is stated by `Differ.SuppressOne`, `Differ.SuppressAppend` and `Differ.SuppressAt`.
- Extraction.ParseIncidents: its own contract states the count. Which incident sits at each position is stated by `Extraction.ParseIncidentsFlat`.
- Dedup.Expire: its own contract states which entries survive and the one-entry case. The survivors' order is stated by `Dedup.ExpireAppend`.
- Embeds.Unresolved: its own contract states which incidents survive and the one-incident case. The survivors' order is stated by `Embeds.UnresolvedAppend`.
- Embeds.StatusDot: its own contract says only that it is one of the two dots. When the dot is filled is stated by `Embeds.StatusDotIff`.
- Embeds.IncidentEmbed: the `updates` field's text is stated through `UpdatesText`'s definition, one update line per update joined by a blank line. It is not split back into lines, because `Split` takes a one-character separator.
- Strings: JavaScript strings are sequences of UTF-16 code units and Dafny strings are sequences of Unicode scalar values. Only `toLowerCase` could see the difference, and it is covered by the `toLowerCase` line above.
- TextUtil.Split: only a one-character separator is modelled, which is all the checker uses.
- src/index.js (Discord client, scheduling, shutdown), src/config.js (environment and validation), src/logger.js and src/test.js: not part of this model.
