# Day-to-verse scheduler of the daily Gita mailer

A script in `story.py` sends one Bhagavad Gita verse a day by mail. This model
covers how the script picks the verse. It is in `story.dfy`, module `Story`.

- **Day numbering.** The script counts the whole days from the fixed start date
  (2 February 2026) to now and adds 1. Python's `timedelta.days` rounds toward
  minus infinity. The model takes the elapsed time in microseconds and uses
  floor division (`WholeDays`), then adds 1 (`DayNumber`, `DayNumberAt`).
- **Verse lookup.** The script walks the chapter-length catalog and keeps a
  running total `count` of the chapters it has passed. It returns chapter
  `i + 1`, verse `day - count` at the first chapter whose cumulative length
  reaches the day. When no chapter does, it returns `(1, 1)`. `LocateVerse` is
  that loop, written for any sequence of chapter lengths. It is proved equal
  to the specification function `VerseRefOf`, which is defined through prefix
  sums (`Prefix`) and the first chapter that reaches the day (`FirstReaching`).
  For any catalog, the lemmas state the range bounds, the round trips in both
  directions, injectivity, "each verse exactly once" and the fallback. For the
  18 Gita chapters (`GitaChapterLengths`, 701 verses), the lemmas state the
  same range bounds, the same injectivity and "each verse exactly once" with
  its round trip, the fallback, the chapter boundaries (days 47, 48 and 701)
  and the result for days of 0 or less.

Two behaviours of the code are worth stating plainly:
- The day number is not clamped. A run before the start date gets day 0 or
  less, and then the address `(1, day)`, which is not a real verse
  (`BeforeStartIsNotClamped`, `GitaBeforeStart`).
- A day past the end of the catalog gets `(1, 1)`, not the last verse
  (`BeyondCatalogFallsBack`, `GitaBeyondEnd`).

## Model

| member | source | states |
|---|---|---|
| `Story.WholeDays` | story.py:15-16 | the whole-day count of an elapsed time is its floor: `days * day <= elapsed < (days + 1) * day`, negative before the start date |
| `Story.DayNumber` | story.py:16 | day `d` has `d - 1` whole days before it, and `d >= 1` exactly when the elapsed whole days are not negative |
| `Story.DayNumberAt` | story.py:14-16 | the day number `d` of an elapsed time is the `d`-th span of 24 hours: `(d - 1) * day <= elapsed < d * day` |
| `Story.WholeDaysUnique` | story.py:15-16 | any whole number of days that brackets the elapsed time in this way is the whole-day count |
| `Story.StartDateIsDayOne` | story.py:14-16 | every run during the first 24 hours from the start date is day 1 |
| `Story.NextDayIsNextNumber` | story.py:14-16 | one more day of elapsed time gives a day number exactly one higher |
| `Story.DayNumberOfWholeDays` | story.py:14-16 | throughout the n-th whole day after the start date the day number is n + 1 |
| `Story.DayNumberMonotone` | story.py:14-16 | a later run never gets a smaller day number |
| `Story.BeforeStartIsNotClamped` | story.py:14-16 | a run before the start date gets day number 0 or less; nothing clamps it to 1 |
| `Story.PrefixStrictlyIncreasing` | story.py:12 | with positive chapter lengths the cumulative lengths strictly increase |
| `Story.PrefixAtMostTotal` | story.py:12 | with positive chapter lengths no cumulative length exceeds the catalog total |
| `Story.FirstReaching` | story.py:20-23 | the index found lies in range, its cumulative length reaches the day (unless none does), and no earlier chapter's does |
| `Story.FirstReachingUnique` | story.py:20-23 | the first chapter that reaches the day is unique: any index with that description is the one found |
| `Story.VerseRefOf` | story.py:18-24 | when some chapter reaches the day, the result is the first such chapter, and `day == sum of earlier chapters + verse`; otherwise it is `(1, 1)` |
| `Story.LocateVerse` | story.py:18-24 | the loop with running total `count` returns exactly `VerseRefOf` of the day; its invariant is that `count` is the sum of the chapters passed, each of which falls short of the day |
| `Story.VerseInRange` | story.py:18-23 | for `1 <= day <= total` the chapter exists and `1 <= verse <= length of that chapter` |
| `Story.DayOfVerseRef` | story.py:19-22 | round trip from days: `sum of the chapters before ch + v` gives back the day, for every day of the catalog |
| `Story.DayOfInRange` | story.py:12-23 | every proper (chapter, verse) address corresponds to a day between 1 and the total |
| `Story.VerseRefOfDay` | story.py:18-23 | round trip from addresses: the day of a proper address looks up to that same address |
| `Story.LookupInjective` | story.py:18-23 | two days of the catalog with the same address are the same day |
| `Story.LookupHitsEachVerseOnce` | story.py:12-23 | every proper address is the result for exactly one day of the catalog |
| `Story.BeyondCatalogFallsBack` | story.py:24 | a day past the catalog total gets the fallback `(1, 1)` |
| `Story.FirstChapterKeepsDay` | story.py:20-22 | any day up to the length of chapter 1, zero and negative days included, gives `(1, day)` |
| `Story.GitaCatalog` | story.py:12 | the Gita catalog has 18 chapters, all positive, 701 verses in total |
| `Story.GitaVerseInRange` | story.py:12-23 | for days 1 to 701 the chapter is between 1 and 18 and the verse lies inside that chapter |
| `Story.GitaBoundaries` | story.py:12-22 | day 47 gives `(1, 47)`, day 48 gives `(2, 1)`, day 701 gives `(18, 78)` |
| `Story.GitaInjective` | story.py:12-23 | two days from 1 to 701 with the same address are the same day |
| `Story.GitaEachVerseOnce` | story.py:12-23 | every proper Gita address maps to a day from 1 to 701, that day looks up to the address, and no other day from 1 to 701 does |
| `Story.GitaBeyondEnd` | story.py:24 | every day after 701 gives `(1, 1)` |
| `Story.GitaBeforeStart` | story.py:20-22 | a day of 0 or less gives `(1, day)`, which is not a proper address |
| `Story.ResolveRun` | story.py:28-29 | one run computes the day number and its Gita address; during the first 701 days the address is proper and maps back to the day |

## Left out

- Reading the wall clock (`datetime.now()`, story.py:15): the elapsed time since the start date is a parameter, in microseconds. `datetime.now()` and `START_DATE` are naive local datetimes, so this parameter is a difference of wall-clock readings, not physical time. `DayNumberMonotone` holds in that wall-clock sense: a clock set back, or a daylight-saving change, can lower the number between two real runs.
- Loading credentials from the environment (story.py:7-9): configuration I/O.
- The request to the text-generation service, the digging into its JSON reply, and the error path that returns `None` (story.py:26-44): a network client over a library that is not part of this model.
- Building the MIME message and sending it over SMTP (story.py:46-68): mail transport.
- The prompt, subject and body format strings (story.py:31, 52, 57): plain formatting with no behaviour to state.
- The diagnostic `print` calls and the `__main__` entry point (story.py:43, 61, 66, 68, 70-71).
- Labelled-field extraction from the generated text, text sanitising for two output channels, and a word-count limit: story.py does none of these, so there is nothing of them to model.
