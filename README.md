# vote69-analyze in Dafny

A verified model of the data logic behind the vote69-analyze dashboard, which shows
constituency ("zone") results of the Thai general election of 8 February 2026 (2569 BE).
The model covers:

- **Snapshot loading order** (`lib/data.ts`). Both loaders sort the imported zone array in place by
  numeric province id, then numeric zone number, and return the same array.
- **Version comparison page** (`app/compare-versions/page.tsx`).
  - It builds a candidate map per snapshot under the key `zone_id-candidate_no`.
  - It takes the de-duplicated union of both maps' keys and sorts it by province, zone and
    candidate number.
  - Each key gets a row with the votes on each side (0 when absent) and B minus A.
  - It shows each snapshot's `total_vote` sum and the difference.
- **Close-race detector** (`app/components/CloseRaceInvalidFlips.tsx`).
  - It flags a zone whose rank-1 lead over rank 2 is below a percentage of the zone's total
    vote (10 by default) and no larger than its invalid ballots.
  - The flagged rows can be re-sorted by invalid ballots.
- **Consistency checks** (`app/zone_control/page.tsx` and `app/components/Compare.tsx`).
  - Per zone: good + invalid + no ballots against `total_vote`, and the sum of candidate
    votes against `good_vote`.
  - Nationwide: the party-list `total_vote` sum against the constituency one.
- **Version discovery script** (`scripts/fetch-zone-control-versions.mjs`).
  - Zero-padded `YYYYMMDDTHHMMSS` tags, one per minute from 12:00 to 16:59 UTC.
  - `--k=v` argument parsing.
  - A resumable loop that asks the server about every tag not yet in the saved state.
  - The sorted list of tags found.

The modules follow the source files:

- Shared infrastructure:
  - `Wrappers`: `Option`.
  - `Text`: decimal text, `Number` on digit strings, `split`/`join`, `trim`, `padStart`,
    code units.
  - `Ordering`: lexicographic order and a stable sort, both on sequences and in place on an
    array.
  - `Collections`: `Set` de-duplication, an insertion-ordered `Map`, `reduce` sums and
    `Object.fromEntries`.
  - `ElectionTypes`: the record shapes of `app/types.d.ts`.
- One module per source file: `ZoneData`, `CompareVersions`, `CloseRace`,
  `ZoneControlChecks`, `CompareTotals` and `VersionScan`.

How JavaScript behaviour is modelled:

- **`sort(cmp)`.** Every `Array.prototype.sort(cmp)` is the stable insertion sort `SortBy`
  by a rank tuple. Each comparator of the source is proved to return `<= 0` exactly when the
  rank tuples are in lexicographic order.
- **In-place sorts.** The two sorts in `lib/data.ts` are `SortInPlace` on an `array`, which
  is proved to leave `SortBy` of the old contents.
- **`Map`.** A `Map` is its entries plus its key order. `map.set` keeps the position of a key
  already present.
- **Loops.** `buildCandidateMap`, `computeCloseRaceInvalidFlips`, `minuteRange` and the
  resume loop are methods with loops. Each is proved equal to a closed-form function, and the
  source's promises are proved about that function.

## Model

| member | source | states |
|---|---|---|
| ZoneData.CompareZones | lib/data.ts:7-10 | the loaders' comparator is 0 exactly when province id and zone number are both equal, and `<= 0` exactly when (province id, zone) is lexicographically no greater |
| ZoneData.SortedZones | lib/data.ts:6-11 | sorting by the zone rank orders by province id, then zone number, and is a permutation of the input (no zone added or dropped) |
| ZoneData.GetZoneControlData | lib/data.ts:5-14 | sorts the constituency array in place and returns that same array, now holding the stable sort of its old contents by (province id, zone) |
| ZoneData.GetZonePartyListControlData | lib/data.ts:16-27 | the same in-place sort and identity of the returned array for the party-list snapshot |
| Ordering.SortInPlace | lib/data.ts:6-11 | the in-place insertion sort leaves exactly the stable sort of the array's old contents |
| Ordering.SortBy | lib/data.ts:6 | the sort has the input's length and elements (same multiset), is in rank order, and is stable: for every rank, the elements of that rank appear in the same order as in the input |
| Ordering.SortByStep | lib/data.ts:6 | sorting one more element is inserting it into the sort of the elements before it |
| Ordering.SortBySorted | scripts/fetch-zone-control-versions.mjs:100 | sorting a sequence that is already in rank order leaves it unchanged |
| Ordering.LexLtAppend | scripts/fetch-zone-control-versions.mjs:100 | strict code-unit order of two equal-length middle parts survives a common prefix and any suffixes |
| CompareVersions.BuildCandidateMap | app/compare-versions/page.tsx:7-24 | the nested loops return the map got by `map.set` of every (zone, candidate) pair in zone order then candidate order |
| CompareVersions.SetZoneCandidates | app/compare-versions/page.tsx:17-20 | the inner loop extends the map by the `map.set` of each candidate of one zone, in `data` order |
| CompareVersions.CandidateIndexEmpty | app/compare-versions/page.tsx:8-23 | an empty snapshot gives an empty map |
| CompareVersions.IndexOfKeys | app/compare-versions/page.tsx:16-21 | every entry set has its key in the map |
| CompareVersions.IndexOfStored | app/compare-versions/page.tsx:16-21 | every stored value is one of the entries set, under its own key |
| CompareVersions.IndexOfLastWins | app/compare-versions/page.tsx:16-21 | when a key is set more than once, the map holds the entry set last under that key |
| CompareVersions.IndexOfKeyOrder | app/compare-versions/page.tsx:16-21 | `map.keys()` is the de-duplication of the keys in the order they were set, so each key appears once, at the place it was first set |
| CompareVersions.EntriesOfZones | app/compare-versions/page.tsx:16-17 | the loops visit every (zone, candidate) pair of the snapshot and nothing else |
| CompareVersions.CandidateIndexCovers | app/compare-versions/page.tsx:16-21 | every candidate of every zone has an entry under `zone_id-candidate_no` (the key `CandidateKey` builds), and every stored entry is a candidate of one of the zones, under its own key |
| CompareVersions.CandidateNoOfKeyRoundTrip | app/compare-versions/page.tsx:18 | when `zone_id` has no `-`, `key.split("-")` of the key `CandidateKey` builds gives the zone id and the candidate number's text, and `CandidateNoOfKey` reads the second piece back as the candidate number |
| CompareVersions.CompareKeys | app/compare-versions/page.tsx:50-64 | the key comparator is `<= 0` exactly when (province id, zone, candidate number) is lexicographically no greater, with the zone read from A when the key is in A, else from B; it is 0 exactly when the three fields agree |
| CompareVersions.AllKeys | app/compare-versions/page.tsx:49 | a key is in `allKeys` exactly when it is a key of `mapA` or of `mapB` |
| CompareVersions.AllKeysSpec | app/compare-versions/page.tsx:49-65 | `allKeys` holds each key of either map exactly once, and every earlier key compares `<= 0` with every later one |
| CompareVersions.JoinRow | app/compare-versions/page.tsx:127-134 | zone and candidate come from A when the key is in A, otherwise from B; `votesA`/`votesB` are that side's votes or 0 when absent; `diff == votesB - votesA` |
| CompareVersions.JoinedRows | app/compare-versions/page.tsx:126 | one row per key of `allKeys`, in that order |
| CompareVersions.OnlyInA | app/compare-versions/page.tsx:132-134 | a candidate present only in A is listed, with `votesB == 0` and `diff == -votesA` |
| CompareVersions.Totals | app/compare-versions/page.tsx:45-47 | each total is the `reduce` sum of `total_vote` from 0 and `totalVotesA + totalVotesDiff == totalVotesB` |
| CompareVersions.CompareVersionsPage | app/compare-versions/page.tsx:42-47 | the page computes both maps, the totals and the rows as specified above |
| Collections.Dedup | app/compare-versions/page.tsx:49 | `Array.from(new Set(...))` has no duplicates, the same members as its input, and lists them in the order of their first occurrences |
| Collections.MapSet | app/compare-versions/page.tsx:19 | `map.set` stores the value under the key, leaves every other key and value alone, keeps a present key's position and appends a new key |
| Collections.SumAppend | app/components/Compare.tsx:10-17 | a `reduce` sum over a concatenation is the sum of the parts' sums |
| Collections.SumSortBy | app/components/Compare.tsx:10-17 | a `reduce` sum does not change when the sequence is sorted |
| Text.ParseNatToString | app/compare-versions/page.tsx:61-63 | `Number(String(n))` is `n` for every natural number |
| Text.SplitJoin | app/compare-versions/page.tsx:61-62 | splitting a join of separator-free pieces gives back the pieces |
| Text.JoinSplit | app/compare-versions/page.tsx:61-62 | joining the pieces of a split gives back the string |
| Text.TrimEnds | app/components/CloseRaceInvalidFlips.tsx:64 | `trim` leaves no whitespace at either end |
| Text.TrimCuts | app/components/CloseRaceInvalidFlips.tsx:64 | `trim` removes only whitespace, and only from the two ends: the result is a slice of the input with only whitespace before and after it |
| Text.TrimUntouched | app/components/CloseRaceInvalidFlips.tsx:64 | a string that neither starts nor ends with whitespace is its own trim |
| Text.PadStart | scripts/fetch-zone-control-versions.mjs:21 | `padStart` reaches the width with the pad character on the left and keeps the original as a suffix; a long enough string is unchanged |
| CloseRace.FindRankSpec | app/components/CloseRaceInvalidFlips.tsx:46-47 | `find` returns the first candidate of the rank, and nothing exactly when no candidate has it |
| CloseRace.FindRankFirst | app/components/CloseRaceInvalidFlips.tsx:46-47 | the first candidate of a rank is the one `find` returns |
| CloseRace.DisplayName | app/components/CloseRaceInvalidFlips.tsx:64 | the shown name is the trim of first name, one space, last name |
| CloseRace.DisplayNameTrimmed | app/components/CloseRaceInvalidFlips.tsx:64 | the shown name neither starts nor ends with whitespace |
| CloseRace.DisplayNameClean | app/components/CloseRaceInvalidFlips.tsx:64 | for names without outer whitespace the shown name is first name, one space, last name |
| CloseRace.MarginPct | app/components/CloseRaceInvalidFlips.tsx:54 | the percentage is 0 when the total is 0, and otherwise times the total equals 100 times the margin |
| CloseRace.MarginPctBelow | app/components/CloseRaceInvalidFlips.tsx:54-55 | for a positive total, the percentage is below the threshold exactly when `margin * 100 < threshold * total` |
| CloseRace.MarginPctSpec | app/components/CloseRaceInvalidFlips.tsx:54-55 | for every total (zero, positive or negative) the percentage test equals a division-free test |
| CloseRace.RankedRowSome | app/components/CloseRaceInvalidFlips.tsx:50-77 | once both ranks are found, a row is pushed exactly when the lead is positive, its percentage of the total is below the threshold and the invalid ballots are at least the lead; the row is the one built from the two candidates (`FlaggedRow`) |
| CloseRace.RowForRanks | app/components/CloseRaceInvalidFlips.tsx:46-71 | a row's rank 1 and rank 2 are the first candidates of those ranks in `data`, each with its party, its trimmed display name and its votes |
| CloseRace.RowForFields | app/components/CloseRaceInvalidFlips.tsx:50-76 | a row has a positive margin equal to rank-1 minus rank-2 votes, the margin's percentage of the total (below the threshold), invalid ballots at least the margin, and the zone's own id, province, zone, invalid and total figures |
| CloseRace.PossibleFlipFound | app/components/CloseRaceInvalidFlips.tsx:46-57 | the possible-flip condition holds exactly when both ranks are found and the candidates `find` returns satisfy the three tests |
| CloseRace.RowForSpec | app/components/CloseRaceInvalidFlips.tsx:46-57 | a zone yields a row if and only if it has a rank-1 and a rank-2 candidate whose margin is positive, not significant, and at most the invalid ballots |
| CloseRace.CloseRaceRows | app/components/CloseRaceInvalidFlips.tsx:43-79 | never more rows than zones |
| CloseRace.CloseRaceRowsStep | app/components/CloseRaceInvalidFlips.tsx:43-79 | one more zone appends exactly its own row, if it has one, after the rows of the zones before it |
| CloseRace.CloseRaceRowsAppend | app/components/CloseRaceInvalidFlips.tsx:44-78 | the rows of two runs of zones are the rows of the first followed by those of the second, so rows keep the zones' order |
| CloseRace.CloseRaceRowsSound | app/components/CloseRaceInvalidFlips.tsx:44-78 | every row is the row of some input zone |
| CloseRace.CloseRaceRowsComplete | app/components/CloseRaceInvalidFlips.tsx:44-78 | every zone that yields a row has it in the output |
| CloseRace.CloseRaceRowsSpec | app/components/CloseRaceInvalidFlips.tsx:44-78 | the output holds exactly the rows of the possible-flip zones |
| CloseRace.CloseRaceExample | app/components/CloseRaceInvalidFlips.tsx:50-57 | 1000 against 950 votes with 20000 ballots and 60 invalid is a 50-vote, 0.25 per cent margin and is flagged |
| CloseRace.ComputeCloseRaceInvalidFlips | app/components/CloseRaceInvalidFlips.tsx:39-80 | the loop with its `continue`s and pushes returns exactly the rows of the flagged zones in order |
| CloseRace.CompareInvalidAsc | app/components/CloseRaceInvalidFlips.tsx:97 | the ascending comparator is `<= 0` exactly when the first row's invalid ballots are no greater |
| CloseRace.CompareInvalidDesc | app/components/CloseRaceInvalidFlips.tsx:99 | the descending comparator is `<= 0` exactly when the first row's invalid ballots are no smaller |
| CloseRace.CloseRaceInvalidFlips | app/components/CloseRaceInvalidFlips.tsx:84-102 | the default threshold is 10; nothing is shown exactly when no zone is flagged; otherwise the rows are a permutation of the computed ones, unchanged for `""`, and for `"asc"`/`"desc"` exactly the stable sort of the computed rows by ascending or descending invalid ballots, so rows with equal invalid ballots keep the detector's order |
| ZoneControlChecks.CheckZone | app/zone_control/page.tsx:49-83 | the row carries the zone, good + invalid + no ballots, and the sum of the candidates' votes; the first check passes exactly when that ballot sum equals `total_vote`, the second exactly when the vote sum equals `good_vote`; a zone without candidates sums to 0 |
| ZoneControlChecks.ZoneControlPageOf | app/zone_control/page.tsx:31-48 | the zone count is the input length and row `i` is `CheckZone` of zone `i` |
| ZoneControlChecks.PageBalanced | app/zone_control/page.tsx:31-83 | when every row of the page passes the first check, the nationwide `total_vote` equals the nationwide good + invalid + no |
| ZoneControlChecks.AllRowsBalanced | app/zone_control/page.tsx:49-83 | when every row passes the first check the nationwide `total_vote` equals the nationwide good + invalid + no; when every row passes both it equals the candidates' votes plus invalid and no ballots |
| CompareTotals.Compare | app/components/Compare.tsx:10-33 | both totals are `reduce` sums of `total_vote` (`TotalVotes`); the diff is the constituency total minus the party-list total; it is shown as good exactly when the diff is 0, that is when the totals are equal, and is positive exactly when the constituency total is larger |
| CompareTotals.TotalVotesFold | app/components/Compare.tsx:10-17 | `TotalVotes` of no zones is 0, of one zone its `total_vote`, and of a concatenation the sum of the parts |
| CompareTotals.CompareEmpty | app/components/Compare.tsx:18-33 | two empty snapshots give diff 0, shown as good |
| CompareTotals.CompareOrderIndependent | app/components/Compare.tsx:10-18 | the comparison is the same whether or not the snapshots are sorted by province and zone first |
| VersionScan.Pad2 | scripts/fetch-zone-control-versions.mjs:20-22 | the result is at least 2 digits, and a number of 2 or more digits is unchanged |
| VersionScan.Pad2Digits | scripts/fetch-zone-control-versions.mjs:20-22 | below 100 the result is exactly the tens digit then the units digit |
| VersionScan.Pad2RoundTrip | scripts/fetch-zone-control-versions.mjs:20-22 | below 100 the padded text reads back as the number |
| VersionScan.VersionTagShape | scripts/fetch-zone-control-versions.mjs:24-26 | a `ToVersionTag` tag for a 4-digit year and 2-digit fields is 15 characters with `T` at index 8, and each field reads back from its own place |
| VersionScan.Pad2Order | scripts/fetch-zone-control-versions.mjs:20-22 | of two numbers below 100, the smaller gives the padded text strictly first in code-unit order |
| VersionScan.TagOrder | scripts/fetch-zone-control-versions.mjs:24-26 | of two times on the same day and second, the earlier hour and minute gives the `ToVersionTag` tag that is strictly first in code-unit order |
| VersionScan.FromMins | scripts/fetch-zone-control-versions.mjs:30-34 | the time keeps the start's year, month, day and second, has a minute below 60, and its minute total (`ToMins`) is the given total, so `fromMins` inverts `toMins` |
| VersionScan.StepsWithin | scripts/fetch-zone-control-versions.mjs:35-40 | `n` steps from the start stay at or below the end exactly when `n` is below `(end - start) div step + 1`, or never when the start is after the end |
| VersionScan.MinuteTimesSpec | scripts/fetch-zone-control-versions.mjs:28-41 | every yielded time keeps the start's date and second, has a minute below 60, lies between start and end, and follows the previous one by the step |
| VersionScan.MinuteRange | scripts/fetch-zone-control-versions.mjs:28-41 | the `while` loop yields exactly the times `start + i * step` for `i` below the count |
| VersionScan.AllTags | scripts/fetch-zone-control-versions.mjs:82 | one tag per enumerated minute: tag `i` is `ToVersionTag` of the `i`-th time |
| VersionScan.TimesOrder | scripts/fetch-zone-control-versions.mjs:28-41 | of two enumerated times, the later one shares the date and second and has the later (hour, minute) |
| VersionScan.AllTagsIncreasing | scripts/fetch-zone-control-versions.mjs:82 | the tags are in strictly increasing code-unit order, so none repeats |
| VersionScan.AllTagsOneMinute | scripts/fetch-zone-control-versions.mjs:17-18 | with a one-minute step there are 300 tags, from `20260208T120000` to `20260208T165900` |
| VersionScan.ParseArg | scripts/fetch-zone-control-versions.mjs:56-57 | an argument's name never contains `=` |
| VersionScan.ParseArgRoundTrip | scripts/fetch-zone-control-versions.mjs:54-59 | `--k=v` gives `k` and `v`, and `--k` gives `k` and `true`, for `k` and `v` without `=`; the leading `--` is what `StripDashes` removes |
| VersionScan.ParseArgCutsValue | scripts/fetch-zone-control-versions.mjs:56-57 | in `--k=v=w` the value is `v`: text after a second `=` is dropped |
| Collections.FromEntriesLastWins | scripts/fetch-zone-control-versions.mjs:54-59 | `Object.fromEntries` has a key exactly when some entry carries it, with the value of the last such entry |
| VersionScan.ParseArgsKeys | scripts/fetch-zone-control-versions.mjs:54-59 | a name is in `ParseArgs` exactly when some argument carries it |
| VersionScan.ParseArgsLastWins | scripts/fetch-zone-control-versions.mjs:54-59 | in `ParseArgs`, a name carried by several arguments has the value of the last of them |
| VersionScan.ScannedStateSnoc | scripts/fetch-zone-control-versions.mjs:87-95 | one more tag leaves the state alone when the tag is known, and otherwise adds the server's answer for it |
| VersionScan.ResumeScan | scripts/fetch-zone-control-versions.mjs:86-98 | the loop ends with the saved state plus the answers for the scanned tags not saved; `checked + skipped` is the number of tags; the state grows by `checked` keys; `skipped` counts the tags already known |
| VersionScan.ScannedStateSpec | scripts/fetch-zone-control-versions.mjs:86-98 | after the loop every tag has an entry, saved entries are never overwritten, and each new entry is the server's answer for a scanned tag |
| VersionScan.FoundTags | scripts/fetch-zone-control-versions.mjs:100 | the filter keeps exactly the tags whose state is `true` |
| VersionScan.FoundTagsIncreasing | scripts/fetch-zone-control-versions.mjs:100 | filtering a strictly increasing tag list keeps it strictly increasing |
| VersionScan.Versions | scripts/fetch-zone-control-versions.mjs:100 | `versions` holds exactly the scanned tags found on the server |
| VersionScan.Run | scripts/fetch-zone-control-versions.mjs:82-100 | over the run, the state is ScannedState of the saved state and the minute tags: every minute's tag gets an entry, saved entries survive, each new entry is the server's answer `checkVersion(tag)`, `skipped` counts the tags already cached, and `versions` is exactly the found tags in chronological order, already sorted |

## Left out

- Loading data. The JSON imports, `Promise.all` over two versions and the Next.js
  `searchParams` are not modelled; each snapshot is an input sequence of zones.
- `DEFAULT_VERSION` and the version argument. app/compare-versions/page.tsx calls
  `getZoneControlData(version)`, but lib/data.ts as shown takes no argument and exports no
  such constant. The loaders are modelled as shown.
- Rendering. JSX, `toLocaleString` and the `cn` class strings are not modelled. The green and
  red outcomes are booleans.
- URL controls. ZoneSortSelect.tsx, VersionSelect.tsx, ZonePartyFilter.tsx and
  CloseRaceInvalidFlipsSortSelect.tsx only write query strings through the Next.js router.
  Zone grouping, invalid and turnout percentages, the party filter and the
  "total votes diff" sort exist there only as labels.
- Number parsing. `province_id`, `zone` and `candidate_no` are naturals, as `Number` reads
  them from well-formed decimal text, and NaN comparisons are not modelled.
  - CompareVersions.CandidateNoOfKey: a candidate part of a key that is not a non-empty
    digit string ranks as 0. That matches `Number("")`, but not the NaN that
    `Number("abc")` gives. This case only arises when a `zone_id` contains `-`.
  - Text.ParseNat: only plain decimal digits are read. `Number` also accepts surrounding
    whitespace (`" 7"`), exponents (`"1e2"`), hexadecimal (`"0x1f"`) and fractions
    (`"7.5"`) and gives a non-zero number for them, where the model reads no number
    (`None`), which the key comparator ranks as 0. Keys built from natural candidate
    numbers never contain such text.
- Number width. JavaScript numbers are modelled as unbounded `int`. Vote counts, sums and
  candidate numbers stay far below 2^53, where doubles represent integers exactly, so the
  difference does not arise for real election data.
- CloseRace.MarginPct: uses exact `real` arithmetic. IEEE-754 rounding of
  `margin / totalVote * 100` at the exact threshold boundary is not modelled.
- CloseRace.RankedRow: the `?? 0` fallbacks for `total_vote` and `invalid_vote` are not
  modelled, because app/types.d.ts declares both fields as required numbers.
- CloseRace.RankedRow: follows the code's `totalVote ? … : 0`. A zero total gives 0 per cent,
  and a negative total still divides; MarginPctSpec states that case.
- VersionScan.MinuteRange: requires `stepMinutes > 0`. With a step of 0 or below, the
  source's generator never ends, and that case is not modelled.
- VersionScan.Run: the step is a parameter. `parseInt(args.step || "1", 10)`, the `--delay`
  and `--state` options and the default state path are not modelled.
- VersionScan.ResumeScan: `checkVersion` is an oracle `string -> bool`, so it gives the same
  answer for the same tag. The HEAD/GET requests, the 405 retry, network errors,
  `saveState` file writes, `console.log` and the delay between requests are not modelled.
  The saved state is a map from tag to boolean; a state file with non-boolean values is not
  modelled.
- Output file. The optional `--output` file write is not modelled.
- Ordering.SortBy: a JavaScript comparator that returns NaN, or that is inconsistent, is
  outside the model. Every comparator in the source is a consistent difference of numbers.
- Text.Codes: a character is one code unit. Characters outside the Basic Multilingual Plane,
  which JavaScript stores as two UTF-16 units, are not modelled. Version tags are ASCII.
