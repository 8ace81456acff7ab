# Migration renaming to Unix milliseconds, modelled in Dafny

`scripts/rename_migrations_to_unix_ms.py` moves migration files named
`YYYYMMDDHHMMSS_<rest>.ts` to names that start with Unix-epoch milliseconds:
`<unix_ms>_<rest>.ts`. It lists `src/migrations` in sorted order. For each name it
does one of three things:

- it skips a name that does not match `^(\d{14})_(.+)\.ts$`;
- it raises `ValueError` when the 14 digits are no valid UTC instant;
- otherwise it computes `unix_ms` and the new name, drops the rename if it is a
  no-op, and appends a path pair to `renames` and a base-name pair to `sql_updates`.

When the loop ends, it prints one `mv` line per rename, a blank line, a SQL header,
and one `update inventory_schema_migrations ...` statement per pair.

The project covers all of this. It has one module per concern:

- `Decimal` is decimal spelling: Python's `str(int)` and reading digits back.
- `Calendar` counts days the way `datetime` does, maps calendar fields to epoch
  seconds and back, and proves the round trip and monotonicity.
- `Stamp` covers the 14-digit stamp: `strptime` validity and `unix_ms`. It proves
  the round trip, that digit order equals numeric order, and the 2286-11-20 cutoff.
- `MigrationName` covers the filename pattern, `old_base`, `new_base` and `new_name`.
- `RenamePlan` is the loop: `BuildPlan` is the method, and `PlanOf` is the
  function it is proved equal to.
- `Report` covers the printed lines: `Render` is the method, and `Output` and
  `Run` are the functions.

Two consequences of the code:

- **An invalid stamp produces no output at all.** Nothing is printed until the
  loop has finished, so the `ValueError` leaves stdout empty. It is never a partial
  listing. `Report.Run` returns `Failure` and no lines.
- **Running the script twice is not always harmless.** For a stamp from
  2286-11-20T17:46:40Z up to 5138-11-16T09:46:40Z, `unix_ms` lies in
  [10^13, 10^14) and so has exactly 14 digits. The new name then matches the
  pattern again, and a second run reads those digits as a calendar stamp. For
  example, 2300-01-01 gives `10413792000000`, which reads as month 37, so a second
  run aborts. Before the first of those instants the new name starts with at most 13
  digits, or with a `-` for instants before 1970. From the second on it starts
  with 15 or more digits. Either way a second run skips it.
  - `MigrationName.NewNameMatches` states the range.
  - `RenamePlan.SecondRunFindsNothing` proves that a second run over the
    directory left by the printed `mv` commands finds nothing when every stamp is
    before 2286-11-20T17:46:40Z.
  - `RenamePlan.SecondRunAbortsExample` shows the abort for the 2300-01-01 file.

## Model

| member | source | states |
|---|---|---|
| MigrationName.ParseName | scripts/rename_migrations_to_unix_ms.py:11 | a match yields 14 ASCII digits as the stamp group and a name ending in `.ts` |
| MigrationName.ParseNameSpelling | scripts/rename_migrations_to_unix_ms.py:11 | a name matches with groups (stamp, rest) exactly when it is stamp + `_` + rest + `.ts`, with stamp 14 digits and rest non-empty and free of line feeds |
| Stamp.ValidStamp | scripts/rename_migrations_to_unix_ms.py:27 | the stamps `strptime` and `datetime` accept: 14 ASCII digits whose year is at least 1, with a month, a day of that month, hour <= 23, minute <= 59 and second <= 59. `InvalidStampExamples` and `LeapDayExamples` pin the cases, and `StampOfUnixMs` only ever produces such stamps |
| Stamp.Fields | scripts/rename_migrations_to_unix_ms.py:27 | `%Y%m%d%H%M%S` reads fixed-width fields: a 4-digit year and 2-digit month, day, hour, minute and second |
| Stamp.InvalidStampExamples | scripts/rename_migrations_to_unix_ms.py:27 | month 13, 31 April, second 60 and year 0 are rejected |
| Stamp.LeapDayExamples | scripts/rename_migrations_to_unix_ms.py:27 | 29 February is accepted in 2024 and 2000 and rejected in 2023 and 1900 (Gregorian rule) |
| Calendar.DaysInMonth | scripts/rename_migrations_to_unix_ms.py:27 | a month has 28 to 31 days, and 29 exactly for February of a leap year |
| Calendar.DaysBeforeYearCounts | scripts/rename_migrations_to_unix_ms.py:27-28 | the closed leap-year formula for day numbers equals the year-by-year count of days |
| Calendar.EpochSeconds | scripts/rename_migrations_to_unix_ms.py:28 | seconds since 1970-01-01T00:00:00Z on `datetime`'s day count. It is proved monotone (`EpochSecondsMonotone`), order-preserving and injective (`EpochSecondsOrder`), and inverted by `FromEpochSeconds` (`EpochSecondsRoundTrip`) |
| Calendar.EpochStartIsZero | scripts/rename_migrations_to_unix_ms.py:28 | 1970-01-01T00:00:00 is epoch second 0 |
| Calendar.EpochSecondsMonotone | scripts/rename_migrations_to_unix_ms.py:27-28 | a later calendar instant has strictly more epoch seconds |
| Calendar.EpochSecondsOrder | scripts/rename_migrations_to_unix_ms.py:27-28 | field order and epoch-second order agree both ways, and equal seconds mean equal fields |
| Calendar.FromEpochSeconds | scripts/rename_migrations_to_unix_ms.py:26-28 | converting epoch seconds back always gives valid calendar fields |
| Calendar.EpochSecondsRoundTrip | scripts/rename_migrations_to_unix_ms.py:26-28 | converting a valid instant to epoch seconds and back gives the same fields |
| Stamp.UnixMs | scripts/rename_migrations_to_unix_ms.py:28 | `unix_ms` is always a multiple of 1000 |
| Stamp.UnixMsOfEpochStart | scripts/rename_migrations_to_unix_ms.py:27-28 | `19700101000000` maps to 0 ms |
| Stamp.UnixMsExample | scripts/rename_migrations_to_unix_ms.py:27-28 | `20230615143000` maps to 1686839400000 ms |
| Stamp.StampOfUnixMs | scripts/rename_migrations_to_unix_ms.py:26-28 | the inverse conversion only ever produces stamps the parse accepts |
| Stamp.FormatOfFields | scripts/rename_migrations_to_unix_ms.py:27 | writing back the fields of a stamp reproduces its 14 digits |
| Stamp.UnixMsRoundTrip | scripts/rename_migrations_to_unix_ms.py:26-28 | `unix_ms / 1000`, converted back to UTC fields, reproduces the original 14 digits |
| Stamp.LexLessFields | scripts/rename_migrations_to_unix_ms.py:13 | string order of two stamps is the order of their calendar fields |
| Stamp.UnixMsMonotone | scripts/rename_migrations_to_unix_ms.py:27-28 | for valid stamps, string order equals the order of `unix_ms`, and equal `unix_ms` means equal stamps |
| Stamp.UnixMsOfCutoff | scripts/rename_migrations_to_unix_ms.py:27-28 | 2286-11-20T17:46:40Z is exactly 10^13 ms |
| Stamp.BeforeCutoff | scripts/rename_migrations_to_unix_ms.py:27-28 | a stamp sorts before `22861120174640` exactly when its `unix_ms` is below 10^13 |
| Stamp.FarFutureExample | scripts/rename_migrations_to_unix_ms.py:27-28 | `23000101000000` maps to 10413792000000 ms |
| Stamp.FarFutureMsIsNoStamp | scripts/rename_migrations_to_unix_ms.py:27 | the digits `10413792000000` are 14 digits that `strptime` rejects |
| Decimal.NatToDecimal | scripts/rename_migrations_to_unix_ms.py:31 | `str(n)` is non-empty digits with no leading zero whose value is `n` |
| Decimal.NatToDecimalLength | scripts/rename_migrations_to_unix_ms.py:31 | `str(n)` has at most k digits exactly when n < 10^k |
| Decimal.NatToDecimalUnique | scripts/rename_migrations_to_unix_ms.py:31 | `str(n)` is the only digit string without a leading zero whose value is n |
| Decimal.IntToDecimal | scripts/rename_migrations_to_unix_ms.py:31 | `f"{n}"` for an int: a `-` before the digits of a negative number. `ParseIntDecimal` reads it back for every integer, and `IntToDecimalChars` limits it to digits and a leading `-` |
| Decimal.ParseIntDecimal | scripts/rename_migrations_to_unix_ms.py:31 | reading back the decimal spelling of any integer, including negative ones, gives the integer |
| MigrationName.OldBase | scripts/rename_migrations_to_unix_ms.py:30 | `old_base + ".ts"` is the name |
| MigrationName.OldBaseOfMatch | scripts/rename_migrations_to_unix_ms.py:24-30 | the old base of a matching name is stamp + `_` + rest |
| MigrationName.NewBase | scripts/rename_migrations_to_unix_ms.py:31 | `f"{unix_ms}_{rest}"`. The stamp can be read back from it (`NewBaseRoundTrip`), and it is the base of `NewName` |
| MigrationName.NewName | scripts/rename_migrations_to_unix_ms.py:31-32 | the new name ends in `.ts` and its base is `new_base` |
| MigrationName.NewNameMatches | scripts/rename_migrations_to_unix_ms.py:31-32 | a new name matches the pattern again exactly when `unix_ms` is in [10^13, 10^14), and then its groups are the ms digits and the unchanged rest |
| MigrationName.NewBaseRoundTrip | scripts/rename_migrations_to_unix_ms.py:26-31 | the original 14 digits can be recovered from `new_base` |
| MigrationName.NoOpRename | scripts/rename_migrations_to_unix_ms.py:34-35 | a rename is a no-op exactly when `str(unix_ms)` equals the stamp, which needs `unix_ms` >= 10^13 |
| RenamePlan.MigrationPath | scripts/rename_migrations_to_unix_ms.py:37 | `(MIG_DIR / name).as_posix()`. `MigrationPathSpelling` shows it is `src/migrations/` + name, and it is injective (`MigrationPathInjective`) and keeps the order of names (`MigrationPathOrder`) |
| RenamePlan.MigrationPathSpelling | scripts/rename_migrations_to_unix_ms.py:37 | a path is `src/migrations/` followed by the name |
| RenamePlan.MigrationPathInjective | scripts/rename_migrations_to_unix_ms.py:37 | distinct names give distinct `src/migrations/...` paths |
| RenamePlan.StepOf | scripts/rename_migrations_to_unix_ms.py:19-38 | a name that does not match is skipped; an iteration aborts exactly when the name matches with an invalid stamp; an emitted entry comes from a matching name with a valid stamp, moves this file to a different path, and its SQL pair is (`old_base`, `str(unix_ms)` + `_` + rest); `StepOfMatch` gives the emitted step for every valid match whose new name differs |
| RenamePlan.PlanOf | scripts/rename_migrations_to_unix_ms.py:18-38 | the loop as a left fold of per-name steps. `BuildPlan` is proved equal to it, and `PlanAligned`, `PlanCount`, `PlanComplete`, `PlanOrdered`, `PlanFailure`, `NothingToDo` and `UnmatchedNotRenamed` are proved about it |
| RenamePlan.BuildPlan | scripts/rename_migrations_to_unix_ms.py:13-38 | the loop over sorted names returns the fold of the per-name steps, and on success the renames are in sorted order |
| RenamePlan.PlanOfFailureSticks | scripts/rename_migrations_to_unix_ms.py:18-27 | once the loop has raised, later names change nothing |
| RenamePlan.PlanAligned | scripts/rename_migrations_to_unix_ms.py:37-38 | `renames` and `sql_updates` have equal length; entry i of each is about the same file and comes from an input name that emitted it |
| RenamePlan.PlanCount | scripts/rename_migrations_to_unix_ms.py:37-38 | both lists hold exactly one entry per name whose iteration appends |
| RenamePlan.PlanComplete | scripts/rename_migrations_to_unix_ms.py:37-38 | every name whose iteration appends has its rename and its SQL pair in the lists, at the position given by the number of appending names before it, so in scan order |
| RenamePlan.MigrationPathOrder | scripts/rename_migrations_to_unix_ms.py:37 | prefixing the directory keeps the order of names |
| RenamePlan.PlanOrdered | scripts/rename_migrations_to_unix_ms.py:13-37 | for sorted input the old paths of the renames strictly increase |
| RenamePlan.PlanFailure | scripts/rename_migrations_to_unix_ms.py:18-27 | the loop raises exactly when some name matches with an invalid stamp, and the error is for the first such name |
| RenamePlan.NothingToDo | scripts/rename_migrations_to_unix_ms.py:18-35 | when every name is skipped, both lists stay empty |
| RenamePlan.UnmatchedNotRenamed | scripts/rename_migrations_to_unix_ms.py:19-22 | no entry of the plan moves a file whose name does not match the pattern |
| RenamePlan.SecondRunSkips | scripts/rename_migrations_to_unix_ms.py:31-35 | after its rename, a file with a stamp before the cutoff is skipped by the loop |
| RenamePlan.MovedNames | scripts/rename_migrations_to_unix_ms.py:37-42 | once the printed `mv` commands have run, each file is either the target of a rename or an old name no rename moves, and so carries the name its own iteration gave it |
| RenamePlan.SecondRunFindsNothing | scripts/rename_migrations_to_unix_ms.py:18-42 | a second run over any listing of the directory the printed `mv` commands leave gives an empty plan when every stamp is before the cutoff |
| RenamePlan.StepExample | scripts/rename_migrations_to_unix_ms.py:24-38 | `20230615143000_create_orders.ts` moves to `1686839400000_create_orders.ts`, with the matching SQL pair |
| RenamePlan.PlanExample | scripts/rename_migrations_to_unix_ms.py:18-38 | the listing `20230615143000_create_orders.ts` gives one rename to `src/migrations/1686839400000_create_orders.ts` and one SQL pair |
| RenamePlan.SecondRunAbortsExample | scripts/rename_migrations_to_unix_ms.py:27-32 | `23000101000000_far_future.ts` is renamed to `10413792000000_far_future.ts`, which a second run rejects |
| Report.MvLine | scripts/rename_migrations_to_unix_ms.py:42 | `f"mv {old} {new}"`. `MvLineSpelling` spells it out for a move inside `src/migrations`, and `ExampleRun` gives the exact line for the example file |
| Report.SqlLine | scripts/rename_migrations_to_unix_ms.py:47 | `update inventory_schema_migrations set name='<new_base>' where name='<old_base>';`, pinned for the example file by `ExampleRun` |
| Report.Output | scripts/rename_migrations_to_unix_ms.py:40-48 | the printed lines in order. `Render` is proved equal to it, and `OutputLayout`, `EmptyOutput`, `SingleEntryOutput` and `PairedLines` state its layout |
| Report.Run | scripts/rename_migrations_to_unix_ms.py:13-48 | a whole run: the error and no lines, or the output of the plan. `RunScript` is proved equal to it, and `RunFails`, `UnmatchedOnlyRun` and `ExampleRun` are proved about it |
| Report.Render | scripts/rename_migrations_to_unix_ms.py:40-48 | the two printing loops produce exactly the lines of `Output(plan)` |
| Report.OutputLayout | scripts/rename_migrations_to_unix_ms.py:40-48 | the `mv` header comes first, then one `mv` line per rename in order, a blank line, the SQL header, and one `update` line per pair in order |
| Report.EmptyOutput | scripts/rename_migrations_to_unix_ms.py:40-44 | an empty plan prints only the two headers with the blank line between them |
| Report.RunScript | scripts/rename_migrations_to_unix_ms.py:13-48 | loop then printing, as one run whose result is `Run(names)` |
| Report.RunFails | scripts/rename_migrations_to_unix_ms.py:18-40 | a run prints nothing exactly when some matching name has an invalid stamp, and the error names the first one |
| Report.PairedLines | scripts/rename_migrations_to_unix_ms.py:37-48 | for an aligned plan, the k-th `mv` line moves `<old_base>.ts` to `<new_base>.ts`, and the k-th `update` line renames `old_base` to `new_base` |
| Report.RunPrintsAligned | scripts/rename_migrations_to_unix_ms.py:37-48 | every run that prints, prints an aligned plan |
| Report.RunPrintsEveryRename | scripts/rename_migrations_to_unix_ms.py:37-48 | when a run prints, every name whose iteration appends gets its `mv` line and its `update` line, at its scan-order position in each section |
| Report.SingleEntryOutput | scripts/rename_migrations_to_unix_ms.py:40-48 | a plan with one entry prints the `mv` header, its `mv` line, a blank line, the SQL header and its `update` line |
| Report.MvLineSpelling | scripts/rename_migrations_to_unix_ms.py:42 | the `mv` line of a move inside `src/migrations` is `mv src/migrations/<old> src/migrations/<new>` |
| Report.EmptyRun | scripts/rename_migrations_to_unix_ms.py:18-44 | an empty directory prints the two headers with the blank line between them and nothing else |
| Report.UnmatchedOnlyRun | scripts/rename_migrations_to_unix_ms.py:18-44 | a listing holding only `notes.ts` prints the two headers with the blank line and nothing else |
| Report.ExampleRun | scripts/rename_migrations_to_unix_ms.py:18-48 | the listing `20230615143000_create_orders.ts` prints exactly five lines: the `mv` header, the `mv` line, a blank line, the SQL header and the `update` line |

## Left out

- Directory I/O: `MIG_DIR.iterdir()` and the `p.suffix == ".ts"` filter of line 13. The input is a list of file names. `BuildPlan` requires it to be strictly sorted, as `sorted` gives for distinct directory entries.
- Platform sort order, for example case-insensitive `Path` comparison on Windows. Order is Python's code-point order on `str`.
- Printing: output is a sequence of lines. The `"\n"` that opens the SQL header is the empty line before it.
- Floating point: `dt.timestamp() * 1000` is modelled as exact integer seconds times 1000. For years 1..9999 the float value is an exact integer.
- `\d` matching non-ASCII Unicode digits: only ASCII `0`-`9` are digits here.
- `$` matching before a trailing line feed. Line 13 already drops such names, because their suffix is not `.ts`.
- `strptime`'s variable-width fields: fields are fixed-width. A short field leaves unconverted data, so `strptime` raises either way.
- Calendar.FromEpochSeconds: it is a search for the year and month, not CPython's `_ord2ymd`. Only the round trip with the forward conversion is stated.
- Shell and SQL quoting: the script does none, and the model adds none.
- The process exit status and the traceback of the `ValueError` are not modelled. A failed run is `Failure(InvalidTimestamp(name))`.
