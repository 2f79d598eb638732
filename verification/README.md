# Two-year leaderboard of state championship ski races

This project models the pure core of `src/data/athletes.json.js`, the data loader
that turns four tab-separated race-result files into a two-year leaderboard. The
four files are the 2025 and 2026 state championship freestyle (5 km) and classic
(4 km) races. The model covers these steps:

- **`parseTime`** (module `RaceTime`): a finish-time cell becomes seconds, or no time.
- **`clean` and `athleteKey`** (module `Names`): bracketed remarks are removed from
  names, and an athlete is identified by the case-folded `first|last` key.
- **`parseRaceFile`** (module `RaceFile`): it takes the file's text, not a path. Lines
  are split into fields, deduplicated by bib and filtered by category, gender and
  name.
- **`buildRankMap`, `buildLookup` and `buildCombinedRanks`** (module `Ranking`): the
  per-race rank table, the first-row lookup by key and the freestyle-plus-classic
  combined ranking of one season.
- **`buildGender`** (module `Joiner`): it takes the four parsed row lists as
  parameters. For one gender it joins the two seasons, keeps the athletes who raced
  in both, and sorts them by the 2026 combined rank.

Supporting modules:

- `Wrappers`: `Option` stands for JavaScript's `null`.
- `Text`: ASCII trimming, case folding, substring search, splitting and digits.
- `StableSort`: `Array.prototype.sort` with a numeric comparator, which is stable. It
  is modelled as an insertion sort and specified by order, permutation and
  stability.
- `Positions`: the "sort, then `map.set(key, i + 1)`" rank tables, where a repeated
  key keeps the position of its last occurrence.
- `Sequences`: filtering and the iteration order of a JavaScript `Set`.

Times are exact reals: `"5:23.4"` is 323.4 seconds.

Three details of the code that the model keeps:

- A bib is marked as seen before the category, gender and name filters run. So a
  bib whose first line is filtered out never yields a row, even if a later line with
  that bib would pass the filters.
- The time pattern also accepts a point with no digits after it (`"5:23."`) and
  seconds of 60 or more (`"1:75"`).
- `athleteKey` cleans names that `parseRaceFile` has already cleaned. Cleaning is
  idempotent, so this changes nothing.

## Model

| member | source | states |
|---|---|---|
| RaceTime.ParseTime | src/data/athletes.json.js:3-10 | a parsed time is never negative |
| RaceTime.MatchClockSound | src/data/athletes.json.js:7-9 | whatever the anchored pattern `^(\d+):(\d+\.?\d*)$` accepts is minutes digits, a colon, seconds digits and an optional point with fraction digits; its value is minutes times 60 plus seconds |
| RaceTime.MatchClockComplete | src/data/athletes.json.js:7-9 | every text of that shape is accepted, with that value |
| RaceTime.ParseTimeSound | src/data/athletes.json.js:3-10 | a time is returned only for a cell whose trimmed text has the time shape, and the time is that text's value |
| RaceTime.ParseTimeComplete | src/data/athletes.json.js:3-10 | any cell that has the time shape once trimmed parses to its value |
| RaceTime.ParseTimeAccepts | src/data/athletes.json.js:3-10 | a cell has a time if and only if its trimmed text has the time shape |
| RaceTime.ParseTimeWhole | src/data/athletes.json.js:7-9 | `mins:secs` in digits parses to minutes times 60 plus seconds |
| RaceTime.ParseTimeRoundTrip | src/data/athletes.json.js:7-9 | printing whole minutes and seconds and parsing the text gives the total back, for any seconds figure |
| RaceTime.ParseTimeBlank | src/data/athletes.json.js:4-6 | empty and whitespace-only cells have no time |
| RaceTime.ExampleTwelveMinutes | src/data/athletes.json.js:7-9 | `"12:00"` is 720 seconds |
| RaceTime.ExampleSecondsOverSixty | src/data/athletes.json.js:7-9 | `"1:75"` is 135 seconds; seconds are not bounded by 60 |
| RaceTime.ExampleWithFraction | src/data/athletes.json.js:7-9 | `"5:23.4"` is 323.4 seconds |
| RaceTime.ExampleWithBarePoint | src/data/athletes.json.js:5-9 | `" 5:23. "` is 323 seconds: blanks are trimmed and a bare point is accepted |
| RaceTime.ExampleMarkers | src/data/athletes.json.js:6 | `"DNS"`, `"-"` and `""` have no time |
| RaceTime.ExampleTwoColons | src/data/athletes.json.js:7-8 | `"1:2:3"` has no time |
| RaceTime.ExampleNoMinutes | src/data/athletes.json.js:7-8 | `":30"` has no time |
| Names.GroupMatchSpec | src/data/athletes.json.js:13 | the group recogniser accepts exactly a prefix that is one match of `\s*\([^)]*\)` |
| Names.StripGroupsLeavesNoGroup | src/data/athletes.json.js:13 | after the global replace, no match of the group pattern starts anywhere in the text |
| Names.StripGroupsOfNoGroup | src/data/athletes.json.js:13 | the replace leaves text without a group unchanged |
| Names.StripGroupsPlainPrefix | src/data/athletes.json.js:13 | text before the first opening parenthesis is kept as it is, when it does not end in whitespace |
| Names.CleanIsClean | src/data/athletes.json.js:12-14 | a cleaned name has no whitespace at either end and contains no group |
| Names.CleanIdempotent | src/data/athletes.json.js:12-14 | cleaning a cleaned name changes nothing |
| Names.CleanKeepsOut | src/data/athletes.json.js:12-14 | cleaning never introduces a character, so a `|`-free name stays `|`-free |
| Names.CleanWithoutParentheses | src/data/athletes.json.js:12-14 | a name without `(` is only trimmed |
| Names.CleanRemark | src/data/athletes.json.js:12-14 | a trimmed name followed by one bracketed remark cleans to the name |
| Names.CleanExampleRemark | src/data/athletes.json.js:12-14 | `"Smith (Soph)"` cleans to `"Smith"` |
| Names.CleanExamplePadded | src/data/athletes.json.js:12-14 | `"  Jones  "` cleans to `"Jones"` |
| Names.KeyOfCleanedNames | src/data/athletes.json.js:16-18 | the key computed from already cleaned names equals the key of the raw names |
| Names.KeyHasSeparator | src/data/athletes.json.js:16-18 | the key holds `|` right after the folded cleaned first name |
| Names.KeyInjective | src/data/athletes.json.js:16-18 | when first names hold no `|`, two keys are equal if and only if the folded cleaned first names are equal and the folded cleaned last names are equal |
| Text.Split | src/data/athletes.json.js:24-25 | no piece holds the separator, and joining the pieces gives the text back |
| Text.SplitJoin | src/data/athletes.json.js:24-25 | splitting joined separator-free pieces gives the pieces back |
| Text.ContainsIgnoringCase | src/data/athletes.json.js:33-34 | the `i`-flagged literal pattern matches if and only if the lower-cased pattern occurs in the lower-cased text |
| Text.ContainsIgnoresCase | src/data/athletes.json.js:33-34 | the case-insensitive test does not depend on the case of the searched text |
| RaceFile.ParseBibRoundTrip | src/data/athletes.json.js:27-28 | the bib reader reads back an integer written in decimal, after leading whitespace and before trailing text that does not start with a digit |
| RaceFile.ParseBibRejects | src/data/athletes.json.js:27-28 | text that does not start with a sign or digit after leading whitespace is not a bib |
| RaceFile.GenderOfName | src/data/athletes.json.js:35-36 | `"Male"` and `"Female"` are read back as the genders they name |
| RaceFile.GenderOf | src/data/athletes.json.js:35-36 | a gender is read only from its exact spelling |
| RaceFile.RowOf | src/data/athletes.json.js:32-47 | every row built from a data line is well formed: admitted category, non-empty cleaned names, key equal to `athleteKey` of the names |
| RaceFile.RowOfFilters | src/data/athletes.json.js:32-39 | a data line makes a row if and only if its trimmed category is admitted, its trimmed gender is exactly `Male` or `Female`, and both cleaned names are non-empty |
| RaceFile.RowOfFields | src/data/athletes.json.js:37-47 | the row's names are the cleaned name fields; its gender spells the gender field; its category is the trimmed category field; its time is `parseTime` of field 9 |
| RaceFile.ShortCourseExcluded | src/data/athletes.json.js:33 | a `"Short Course Male"` category is never admitted |
| RaceFile.RowKeyFolded | src/data/athletes.json.js:40-47 | an emitted row's key is its lower-cased first name, `|`, its lower-cased last name |
| RaceFile.Classify | src/data/athletes.json.js:25-47 | a data line's row, when there is one, is well formed |
| RaceFile.Scan | src/data/athletes.json.js:24-31 | the loop emits no bib seen before it and no bib twice |
| RaceFile.ParseRaceFile | src/data/athletes.json.js:20-50 | every emitted row is well formed |
| RaceFile.ParseRaceFileLines | src/data/athletes.json.js:24-25 | parsing a text is the loop over its lines, each classified on its own |
| RaceFile.ScanSound | src/data/athletes.json.js:24-48 | every emitted row comes from the first data line of its bib, and that bib was not seen earlier |
| RaceFile.ScanComplete | src/data/athletes.json.js:24-48 | the first data line of an unseen bib that the filters admit is emitted |
| RaceFile.ScanAppend | src/data/athletes.json.js:24-48 | the rows of two consecutive blocks of lines are those of the first block, then those of the second with the first block's bibs already seen |
| RaceFile.FilteredBibBlocksLater | src/data/athletes.json.js:29-36 | a data line that the filters reject still consumes its bib: no later line with that bib is emitted |
| RaceFile.NonDataLineSkipped | src/data/athletes.json.js:26-28 | a line with fewer than ten fields or no numeric bib consumes nothing |
| StableSort.SortByCharacterised | src/data/athletes.json.js:53 | the sort's result is the only sequence that is ordered by the key and keeps, for every key value, the input order of the elements with that key |
| StableSort.SortByKeepsTies | src/data/athletes.json.js:53 | two elements with equal keys keep their relative order |
| StableSort.SortByCount | src/data/athletes.json.js:53 | the sort is a permutation: every property holds for as many elements after it as before |
| Ranking.TimedMember | src/data/athletes.json.js:53 | the filtered rows are exactly the rows with a time |
| Ranking.RankMapDomain | src/data/athletes.json.js:52-57 | a key is ranked if and only if some row with that key has a time |
| Ranking.RankMapBounded | src/data/athletes.json.js:52-57 | every rank lies between 1 and the number of timed rows |
| Ranking.RankMapInjective | src/data/athletes.json.js:52-57 | distinct keys have distinct ranks |
| Ranking.RankMapLastWins | src/data/athletes.json.js:55 | a key's rank is the position of its last row in the sorted rows |
| Ranking.RankMapFaster | src/data/athletes.json.js:52-57 | of two keys timed once each, the strictly faster one has the strictly smaller rank |
| Ranking.RankMapTies | src/data/athletes.json.js:52-57 | of two keys timed once each with equal times, the one whose row comes first in the input has the smaller rank |
| Ranking.LookupDomain | src/data/athletes.json.js:59-65 | the lookup holds exactly the keys of the rows |
| Ranking.LookupFirst | src/data/athletes.json.js:59-65 | the first row with a key is the key's entry |
| Ranking.LookupEntry | src/data/athletes.json.js:59-65 | every entry is a row of the input stored under its own key |
| Ranking.LookupAppend | src/data/athletes.json.js:61-63 | a later row adds its key only if the key is new, and never replaces an entry |
| Ranking.BothTimes | src/data/athletes.json.js:70-73 | a key has a combined time if and only if both lookups hold a row with a time for it, and that time is their sum |
| Ranking.CombinedDomain | src/data/athletes.json.js:67-80 | a key has a combined entry if and only if it is in the key list and timed in both races; an athlete timed in one race has no entry |
| Ranking.CombinedTime | src/data/athletes.json.js:67-80 | the entry's time is the sum of the two race times, and its rank is at most the number of athletes timed in both |
| Ranking.CombinedDense | src/data/athletes.json.js:76-78 | with a duplicate-free key list, every rank from 1 to the number of combined athletes is given to some key |
| Ranking.CombinedInjective | src/data/athletes.json.js:76-78 | distinct keys have distinct combined ranks |
| Ranking.CombinedFaster | src/data/athletes.json.js:67-80 | a strictly smaller total gives a strictly smaller combined rank |
| Ranking.CombinedTies | src/data/athletes.json.js:67-80 | equal totals are ranked in key-list order |
| Ranking.CombinedExample | src/data/athletes.json.js:67-80 | John Doe at 10:00 freestyle and 12:00 classic is ranked 1 with 1320 seconds; Jane Roe, with no classic time, has no entry |
| Sequences.DedupMember | src/data/athletes.json.js:103-104 | the key set holds exactly the keys added to it |
| Sequences.DedupDistinct | src/data/athletes.json.js:103-104 | the key set iterates each key once |
| Sequences.DedupOrder | src/data/athletes.json.js:103-104 | a key first added before another is iterated before it |
| Joiner.SeasonCoherent | src/data/athletes.json.js:88-107 | within one gender's season, the key set is duplicate-free and is exactly the keys of the two lookups; every looked-up row is stored under its own key and has that gender |
| Joiner.LookupOfGenderDomain | src/data/athletes.json.js:88-101 | the lookup of a gender holds exactly the keys of that gender's rows |
| Joiner.BothKeysMember | src/data/athletes.json.js:109 | the common keys are exactly the keys of both seasons |
| Joiner.RepresentativeFrom2025 | src/data/athletes.json.js:113 | the representative row of a common key is its 2025 freestyle row, or else its 2025 classic row; the 2026 lookups are never reached |
| Joiner.BoardKeys | src/data/athletes.json.js:109-134 | the board has a row for a key if and only if the key raced in both seasons |
| Joiner.BoardDistinct | src/data/athletes.json.js:109-134 | no key has two rows on the board |
| Joiner.BoardSorted | src/data/athletes.json.js:136 | the board is in order of 2026 combined rank (9999 when missing) and keeps the join order among equal ranks |
| Joiner.BoardTies | src/data/athletes.json.js:109-136 | athletes with equal sort ranks appear in 2025 key-set order |
| Joiner.BoardEntry | src/data/athletes.json.js:112-133 | each board row is the row built for its key from its representative |
| Joiner.BoardRepresentative | src/data/athletes.json.js:113-120 | a row's name, first and last come from a row of that athlete and gender in the 2025 lookups |
| Joiner.SeasonCombined | src/data/athletes.json.js:106-115 | the combined time looked up for a key is its two-race total; it has a combined rank exactly when it has a total, and that rank is at most the size of the season's key set |
| Joiner.BoardCombined | src/data/athletes.json.js:114-132 | each row's combined times are the two-race totals of its key in 2025 and 2026, and it has a 2026 combined rank exactly when it has a 2026 combined time |
| Joiner.BoardUnrankedLast | src/data/athletes.json.js:136 | every athlete with a 2026 combined rank comes before every athlete without one |
| Joiner.GenderKeys | src/data/athletes.json.js:87-137 | for one gender, an athlete is in the output if and only if it ran, with that gender, a 2025 race and a 2026 race |
| Joiner.GenderOrder | src/data/athletes.json.js:87-137 | the output has one row per athlete and is sorted by 2026 combined rank, 9999 for none |
| Joiner.GenderNames | src/data/athletes.json.js:113-120 | every output row is named after a 2025 row of that athlete and gender: its first and last names, and the two joined by a space as its name |
| Joiner.GenderSorted | src/data/athletes.json.js:87-137 | the returned rows are in non-decreasing order of the 2026 combined rank, 9999 for none |
| Joiner.GenderRows | src/data/athletes.json.js:87-137 | the returned rows are one per athlete who ran, with that gender, a 2025 race and a 2026 race, each such athlete once, and each row is named after a 2025 row of its athlete and gender |

## Left out

- Reading the files, the fixed file paths and the top-level calls (lines 1, 21 and
  82-85), and writing the JSON to standard output (lines 139-144). The model takes the
  file text and the four row lists as parameters. `Joiner.BuildLeaderboard` builds the
  `{ boys, girls }` object, but no property is stated about it beyond those of
  `Joiner.BuildGender` (`Joiner.GenderRows`, `Joiner.GenderSorted`).
- IEEE-754 doubles. Times, sums and the sort keys are exact reals, so the rounding of
  `+m[2]`, of `min * 60 + sec` and of `fs.time + cl.time` is not modelled. Neither is
  the precision lost by bib numbers beyond 2^53.
- JavaScript `parseInt` is modelled only as optional leading whitespace, an optional
  sign and a run of decimal digits. `0x` prefixes, radix guessing and `Infinity` are
  not.
- Unicode. `trim`, `\s` and `toLowerCase` are restricted to ASCII whitespace and ASCII
  letters, and strings are sequences of characters with no normalisation.
- The regular-expression engine. The three patterns are hand-written recognisers:
  the time pattern, the bracketed-group pattern and the three category substrings.
- The gender field is the enum `Male | Female`, not the source's string. Only those
  two exact spellings survive the filter, so nothing is lost.
- `ref.first` on a missing representative would throw in the source. The model drops
  such a key instead. `Joiner.RepresentativeFrom2025` proves this never happens: every
  common key has a 2025 row.
- Joiner.BoardUnrankedLast: requires the 2026 key set to hold fewer than 9999 keys.
  With 9999 or more athletes in one gender's 2026 races, a real combined rank of 9999
  or more would tie with, or sort after, the sentinel for "no rank".
- Ranking.RankMapFaster and Ranking.RankMapTies: stated only for keys with a single
  timed row. A key with several timed rows gets the position of its last row
  (`Ranking.RankMapLastWins`), which need not respect its other rows' times.
- Ranking.CombinedDense: assumes a duplicate-free key list. The source only ever
  passes a `Set`, which `Joiner.SeasonCoherent` shows is duplicate-free.
