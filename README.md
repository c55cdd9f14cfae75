# Results service of the runners backend, modelled in Dafny

The runners backend records race results and keeps two derived fields on each
runner: the **personal best** (fastest time ever) and the **season best**
(fastest time of the current year). The results service does three things:

- It turns a fixed-width `HH:MM:SS` race-time string into a duration (`parseRaceResult`).
- **CreateResult** validates a new result and inserts it. It then updates the runner's best times.
- **DeleteResult** removes a result. It then recomputes a best time if the deleted time was that best.

The project models this service and proves what it promises.

- `race_time.dfy` (module `RaceTime`): the parser, on whole seconds, with the canonical `HH:MM:SS` formatter as its inverse.
- `models.dfy` (module `Models`): the `Result` record and the part of the `Runner` record the service touches.
- `repositories.dfy` (module `Repositories`): the two SQL repositories as abstract state.
  - The results table is a sequence of rows in insertion order, with unique identifiers.
  - `BestTime` stands for the best-time queries `GetPersonalBestResults` and `GetSeasonBestResults`. It returns the fastest time among the runner's rows (of one year for the season query), or `""` when there are none.
- `services.dfy` (module `Services`): the service in two forms.
  - As functions on a store value: `Validate`, `ImproveBest`, `ApplyBests`, `Create`, `Delete`.
  - As the class `ResultsService`, whose fields are the two tables. Its methods `CreateResult` and `DeleteResult` follow the Go code step by step, with early returns and the fetched runner updated field by field. Each is proved to leave exactly the state, and return exactly the outcome, that `Create` or `Delete` gives.
- `service_properties.dfy` (module `ServiceProperties`): the properties, proved about `Create` and `Delete`.
  - It also holds a worked example: three creates and one delete.
- `wrappers.dfy`: `Option`.

How the environment is modelled:

- The clock (`time.Now().Year()`) is the parameter `currentYear`.
- The identifier the results store assigns to a new row is the parameter `newId`. It must not already be in the table, because identifiers are a primary key.
- A failing store call is described by the parameter `faults`, which gives the status of the error each store call returns; `NoFaults` means every call succeeds. The service returns that error unchanged.
- A Go run-time panic is the outcome `Panicked`. Two situations cause one:
  - Slicing a race-time string shorter than eight characters.
  - Dereferencing the nil runner in `DeleteResult` when the result's runner does not exist.

The main invariant is `BestsConsistent`. It says that every runner's personal best is the time string of one of its fastest results, which is `""` when it has no results. Likewise, its season best is the time string of one of its fastest results of `currentYear`.

- `CreatePreservesBests` and `DeletePreservesBests` prove that both operations keep this invariant when no store call fails.
- `CreatePreservesBests` also proves that, with the invariant in place, the 500 branches of `CreateResult` cannot be reached.
- When a store call fails after the insert, the invariant can break. An example is a failed runner update, which leaves the inserted result counted by no best time. The Go code does not roll back the insert when a later store call fails.
- The invariant holds for a fixed `currentYear`. Nothing in the service resets a season best when the calendar year changes, so after a change of year the stored season best can come from an earlier year.

Where the source as written does not fit together, the model takes the evident intent:

- The `Result` struct spells the race-time field `RaceResutl` (runners/models/result.go:6), while the service reads `RaceResult`. The model has one field, `raceResult`.
- Line 118 of runners/services/resultsService.go assigns the parsed `time.Duration` to the string field `SeasonBest`. The model stores the race-time string, as line 108 does.
- The repository types are named `repositories.*` in the struct (lines 11-12) and `repository.*` in the constructor (lines 16-17). The model has one repository of each kind.

## Model

| member | source | states |
|---|---|---|
| `RaceTime.ParseRaceResult` | runners/services/resultsService.go:176-181 | The parse succeeds exactly when the characters at indices 0, 1, 3, 4, 6 and 7 are decimal digits. The value is at most 99:99:99 in seconds. The function may only be called on strings of at least eight characters, since shorter ones make the slicing panic. |
| `RaceTime.ParseFormatted` | runners/services/resultsService.go:176-181 | Parsing the canonical `HH:MM:SS` spelling of three two-digit fields gives `HH*3600 + MM*60 + SS` seconds. |
| `RaceTime.FormatParsed` | runners/services/resultsService.go:176-181 | The converse: an eight-character string with `:` separators that parses is the canonical spelling of its three fields, and its seconds are `HH*3600 + MM*60 + SS`. |
| `RaceTime.ParseIgnoresSeparators` | runners/services/resultsService.go:176-181 | Two strings that agree on the six field characters parse alike, whatever stands at indices 2 and 5 or from index 8 on. |
| `RaceTime.ParseAcceptsUnrangedMinutes` | runners/services/resultsService.go:176-181 | Minutes are not range-checked: `"00:99:00"` parses to 5940 seconds. Separators are not checked: `"01x30y00 and more"` parses to 5400 seconds. |
| `RaceTime.ParseRejectsNonDigit` | runners/services/resultsService.go:176-181 | A non-digit at any of the six field positions makes the parse fail. |
| `RaceTime.CanonicalOrder` | runners/services/resultsService.go:100 | When minutes and seconds are below 60, `Seconds(s) < Seconds(t)` holds exactly when s's (hours, minutes, seconds) fields come first in lexicographic order. |
| `RaceTime.UnrangedMinutesBreakFieldOrder` | runners/services/resultsService.go:176-181 | Without a range check the two orders disagree. `"00:99:00"` has the smaller hours field but is slower than `"01:00:00"`. |
| `Repositories.BestTime` | runners/services/resultsService.go:151-161 | The best-time query returns `""` exactly when the runner has no counting result. Otherwise it returns the time string of a counting result that is at least as fast as every counting result. For the personal best every result counts; for the season best only results of the given year count. |
| `Repositories.FindResult` | runners/services/resultsService.go:139 | If it returns an index, the row there has the identifier. It returns nothing exactly when no row has the identifier. |
| `Repositories.RemoveAt` | runners/services/resultsService.go:139 | Deleting a row leaves one row fewer. Every remaining row was in the table, and every row other than the deleted one remains. |
| `Repositories.RemoveAtUnique` | runners/services/resultsService.go:139 | Deleting a row keeps identifiers unique. The rows left are exactly those whose identifier differs from the deleted one. |
| `Repositories.AppendUnique` | runners/services/resultsService.go:71 | Inserting a row with a fresh identifier keeps identifiers unique. |
| `Services.Validate` | runners/services/resultsService.go:26-68 | An accepted result has a race time that parses. |
| `Services.ImproveBest` | runners/services/resultsService.go:89-103 | An empty best becomes the new time. A stored best that parses changes to the new time only when the new time is strictly faster; otherwise it is kept. A stored best of eight or more characters that does not parse gives 500. A non-empty stored best shorter than eight characters panics. |
| `Services.ApplyBests` | runners/services/resultsService.go:89-122 | The personal best follows `ImproveBest`. The season best follows it only for a result from the current year and is untouched otherwise. Other runner fields are kept. The only error is 500, and the call succeeds exactly when each rule it applies succeeds. It panics exactly when the personal-best rule panics, or, for a current-year result, the personal-best rule succeeds and the season-best rule panics. |
| `Services.Create` | runners/services/resultsService.go:25-129 | A result that fails validation leaves the store unchanged. Otherwise the results table either stays as it was or gains exactly the stored record, the result with the store-assigned identifier. Success returns that record, and the runners table keeps its keys. Any other outcome leaves the runners table unchanged. The lemmas `CreateRejectedChangesNothing` through `CreatePreservesBests` below describe the branches. |
| `Services.Delete` | runners/services/resultsService.go:131-174 | An empty or unknown identifier leaves the store unchanged. Otherwise the results table either stays as it was or loses exactly one row, and every remaining row was there before. Success removes that row and keeps the runners table's keys. Any other outcome leaves the runners table unchanged. The lemmas `DeleteRejects`, `DeleteStoreErrorsPassThrough`, `DeleteRemovesResult`, `DeleteRecomputesBests` and `DeletePreservesBests` below describe the branches. |
| `Services.ResultsService.constructor` | runners/services/resultsService.go:15-23 | The service starts with the given contents of the two repositories. |
| `Services.ResultsService.CreateResult` | runners/services/resultsService.go:25-129 | The outcome and the new contents of both tables are exactly those of `Create` on the old contents. The table invariant (parsable times, unique identifiers) is kept. |
| `Services.ResultsService.DeleteResult` | runners/services/resultsService.go:131-174 | The outcome and the new contents of both tables are exactly those of `Delete` on the old contents. The table invariant is kept. |
| `ServiceProperties.ValidationIsFirstFailure` | runners/services/resultsService.go:26-68 | Checks run in this order: runner id, race result, location, position, year, parse. Validation rejects with check k exactly when check k fails and every earlier check passes. When all checks pass, a race time shorter than eight characters panics; otherwise the result is accepted. |
| `ServiceProperties.CreateRejectedChangesNothing` | runners/services/resultsService.go:26-74 | A result that fails validation gets 400, or a panic for a too-short time. Neither table changes. |
| `ServiceProperties.CreateInsertsFirst` | runners/services/resultsService.go:70-129 | After validation the insert comes first. If the insert fails, its error is returned and nothing changes. Otherwise the stored record stays in the table whatever happens next. The runners table changes only on success. |
| `ServiceProperties.CreateStoreErrorsPassThrough` | runners/services/resultsService.go:71-127 | A failing runner fetch or runner update returns the store's error unchanged. The inserted result stays and the runner is not written. |
| `ServiceProperties.CreateShortBestPanics` | runners/services/resultsService.go:89-122 | A non-empty stored personal best shorter than eight characters panics when sliced. So does such a season best, for a current-year result whose personal best was handled. The result stays inserted and no runner is written. |
| `ServiceProperties.CreateMissingRunner` | runners/services/resultsService.go:77-87 | A runner that does not exist gives 404 after the result has been inserted. The runners table does not change. |
| `ServiceProperties.CreateUnparsableBest` | runners/services/resultsService.go:89-122 | A stored personal best that cannot be parsed gives 500. So does a stored season best that cannot be parsed, for a current-year result. In both cases the result stays inserted and no runner is written. |
| `ServiceProperties.CreateSuccess` | runners/services/resultsService.go:89-128 | On success the stored record is returned and only that result's runner changes. Its personal best becomes the new time exactly when it was empty or the new time is strictly faster; an equal or slower time keeps it. Its season best follows the same rule for a current-year result and is unchanged for an earlier year. Its other fields are kept. |
| `ServiceProperties.CreateBestsNeverSlower` | runners/services/resultsService.go:89-122 | After a successful create the personal best is no slower than the new time and no slower than the old best. The same holds for the season best of a current-year result. |
| `ServiceProperties.DeleteRejects` | runners/services/resultsService.go:132-142 | An empty result id gives 400 and changes nothing. An unknown id gives the repository's 404 and changes nothing. |
| `ServiceProperties.DeleteStoreErrorsPassThrough` | runners/services/resultsService.go:139-171 | A failing delete returns its error and leaves the store unchanged. After a successful delete, each of these returns its error unchanged: a failing runner fetch; a failing personal-best query, made only when the personal best is the deleted time; a failing season-best query, made only when the season best is the deleted time and the result is from the current year; a failing runner update. A missing runner panics. In every such case the row stays deleted and the runners table is unchanged. |
| `ServiceProperties.DeleteRemovesResult` | runners/services/resultsService.go:139-171 | Deleting a stored result removes exactly that row, whatever happens afterwards. The runners table changes only on success. |
| `ServiceProperties.DeleteRecomputesBests` | runners/services/resultsService.go:149-171 | After a successful delete only the deleted result's runner changes. Its personal best is recomputed from the remaining results exactly when it equals the deleted time string; otherwise it is kept. Its season best is recomputed from the remaining current-year results exactly when it equals the deleted string and the deleted result is from the current year; otherwise it is kept. Other fields are kept. |
| `ServiceProperties.BestIsWellFormed` | runners/services/resultsService.go:93-99 | A correct best time is `""` or a string that parses. |
| `ServiceProperties.BestOfAppend` | runners/services/resultsService.go:89-122 | Take a best time that is correct for a table, and a new row. If the row counts, applying the create rule gives a best time that is correct for the table with the row appended. If it does not count, the old best stays correct. |
| `ServiceProperties.BestOfRemove` | runners/services/resultsService.go:149-166 | A correct best time stays correct when a row is removed, unless that row counts and carries that very time string. |
| `ServiceProperties.CreatePreservesBests` | runners/services/resultsService.go:70-128 | With no store failures, CreateResult keeps every runner's best times correct. A validated result then either succeeds, returning the stored record, or meets a missing runner and gets 404; it never gets 500. |
| `ServiceProperties.DeletePreservesBests` | runners/services/resultsService.go:139-171 | With no store failures, DeleteResult keeps every runner's best times correct. |
| `ServiceProperties.WorkedExample` | runners/services/resultsService.go:25-174 | Runner R1 starts with no results, in 2024. 01:30:00 (2024) sets both bests to 01:30:00. 01:25:00 (2024) sets both to 01:25:00. 01:40:00 (2023) changes neither. Deleting the 01:25:00 result recomputes both to 01:30:00. |
| `ServiceProperties.WorkedExampleOnService` | runners/services/resultsService.go:25-174 | The same calls made on the service object give the same runner records after each step. |

## Left out

- runners/server/httpServer.go is not modelled. It is HTTP and configuration wiring and both of its functions are empty.
- The SQL repositories are not part of this model. They are abstract tables, and each query is stated by its result, not by its SQL.
  - The model assumes that deleting an unknown result id makes the repository report not-found (404).
  - It assumes that a new row's identifier is fresh.
  - It assumes that every race time already in the results table parses (`StoreValid`, through `TimesWellFormed`). The constructor and `Delete` require this, and `CreateResult` and `DeleteResult` keep it. It holds whenever every row came in through `CreateResult`, which parses the time before inserting. Go demands nothing of the rows it is given, and `DeleteResult` compares stored times only as strings.
- Store failures are described only by the status of the error each call returns. The model assumes that a failing store call changes nothing.
- Response message strings are not modelled; only the statuses (400, 404, 500) are. One consequence: the negative-position check reuses the message "Invalid location" (line 49), and that slip is not visible in the model.
- The clock is the `currentYear` parameter.
- Concurrency is not modelled. CreateResult and DeleteResult read and then write the runner without a transaction, so concurrent requests can race. The model runs one call at a time.
- A Go panic is the outcome `Panicked`. What the HTTP framework then sends to the client is not modelled.
- `RaceTime.ParseRaceResult`: accepts only fields of two decimal digits. Go's `time.ParseDuration` also accepts a few other fields, and the model treats these as parse errors:
  - a sign in the first field (`"+1"`, `"-1"`; the latter gives a negative duration);
  - a decimal point (`"1."`, `".5"`);
  - a unit letter in a field. Go reads a unit as the longest run of characters that are neither digits nor `.`, and `ms`, `us` and `ns` are units too. So an `m`, `u` or `n` at index 7 (`"00:00:1m"` becomes `"00h00m1ms"`, 1 ms) or an `s` at index 6 (`"00:05:s5"` becomes `"00h05ms5s"`, 5 s and 5 ms) parses in Go.
  - In short, every field Go accepts other than two decimal digits is a parse error in the model. A result with such a time gets 400 in the model, while Go inserts it.
- `RaceTime.ParseRaceResult`: counts characters, not bytes. Go slices the string by bytes. The two agree on ASCII input.
- `Models.Runner` keeps only the fields the service touches. `name` stands for all the others.
- Integer widths: years and positions are unbounded integers. Only comparisons are applied to them, so Go's 64-bit `int` makes no difference here.
