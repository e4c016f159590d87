# era5_grib_parallel — a verified model of the repackaging driver

era5_grib_parallel turns the ERA5 netCDF archive on NCI into one GRIB1 file per
requested date-time, `ec_grib_YYYYMMDDHHMM.t+000`, for the regional nesting
suite. This project models its two core scripts in Dafny:

- **`cdo_era5grib.py`**
  - `fields()`: a catalog of 19 comma-separated lines (name, level category,
    code in ECMWF table 128).
  - `repackage_grib`, for one date-time. For each catalog field it:
    - builds the archive directory;
    - picks the first listing entry that contains the `YYYYMM` token;
    - extracts the date-time into a temporary file with `cdo seldate`;
    - renames the sea-ice variable;
    - attaches the GRIB code and table.

    It then deletes a stale merged file and output, merges the temporaries,
    converts the merged file to GRIB1, and deletes the temporaries and the
    merged file.
- **`nci_era5grib_parallel.py`**
  - `main`: builds the list of `%Y-%m-%dT%H:%M:%S` date strings from
    `--start`, `--count` and `--freq`.
  - It cuts the list into groups by stepping an offset over
    `range(0, len + 1, 4)`.
  - For each group, it submits one task per date to a pool of four workers and
    waits for every result before going on to the next group.

Modules, one per file:

- **`Strings`**: the Python built-ins the scripts rely on:
  - `"%0w.wd"` padding;
  - `int()`;
  - `str.split` and `str.join`;
  - `in` on strings;
  - `str.replace`.
- **`Calendar`**: the proleptic Gregorian calendar.
  - Instants are whole seconds since 0001-01-01T00:00:00, and the conversion
    to calendar fields is proved in both directions.
  - The two strftime layouts.
  - strptime.
  - The range of instants a pandas `Timestamp` can hold.
- **`Catalog`**: `fields()` and the parsing of its lines.
- **`Naming`**: the archive path, the month-file lookup, the names of the
  temporary, swap, merged and output files, and the cdo command lines.
- **`Repackager`**: `repackage_grib` as a state machine over the output
  directory.
  - The directory is a class `OutputDir` whose `files` map is updated in
    place by `cdo`, `mv` and `os.remove`.
  - A file's content is the term of tool runs that produced it.
  - Which command lines fail is a parameter.
- **`Scheduler`**: date generation, grouping, and the submit/await order of
  the offset loop.
  - Which tasks raise is a parameter.
  - A raise can be an exception in the task or the 600 s timeout of
    `res.get`.

About the grouping: the offset loop runs over `range(0, len(all_dates) + 1, 4)`.
For L dates it forms L/4 + 1 groups, not ⌈L/4⌉. When L is a multiple of four
(zero included), the last group is empty and submits nothing. The model
follows the code, and `Scheduler.LastChunkEmpty` states exactly when the last
group is empty.

About the output name: the compact stamp has minute resolution. Two tasks
of one batch write the same output file exactly when their instants fall
in the same minute (`Scheduler.OutputsCollide`). For example, a 30 s step
from a whole minute sends the first two tasks to the same file
(`Scheduler.SubMinuteStepCollides`).

## Model

| member | source | states |
|---|---|---|
| Strings.PadValue | src/era5grib_parallel/cdo_era5grib.py:90-93 | `"%4.4d"`/`"%2.2d"` renderings are digit strings denoting the number, whatever the width |
| Strings.PadFixed | src/era5grib_parallel/cdo_era5grib.py:93 | a number below 10^w pads to exactly w digits that denote it |
| Strings.PadCanonical | src/era5grib_parallel/cdo_era5grib.py:77 | a digit string is the padded rendering of its own value at its own width (what strptime reads, strftime writes back) |
| Strings.DecimalRoundTrip | src/era5grib_parallel/cdo_era5grib.py:121 | the digits `"%d"` writes denote the number written |
| Strings.ParseIntDecimal | src/era5grib_parallel/cdo_era5grib.py:88 | `int()` of a non-negative `"%d"` rendering gives the number back |
| Strings.ParseIntText | src/era5grib_parallel/cdo_era5grib.py:88 | `int()` reads back any integer `"%d"` wrote, negatives included |
| Strings.Split | src/era5grib_parallel/cdo_era5grib.py:87 | `str.split` yields at least one piece and no piece holds the separator |
| Strings.JoinSplit | src/era5grib_parallel/cdo_era5grib.py:87 | joining the pieces of a split with the separator gives the string back |
| Strings.SplitJoin | src/era5grib_parallel/cdo_era5grib.py:142 | splitting a join of separator-free pieces gives the pieces back |
| Strings.SplitConcat | src/era5grib_parallel/cdo_era5grib.py:87 | splitting at a separator placed between two strings splits each side on its own |
| Strings.ContainsIff | src/era5grib_parallel/cdo_era5grib.py:94 | `t in s` holds exactly when t occurs in s at some position |
| Strings.ReplaceAbsent | src/era5grib_parallel/cdo_era5grib.py:75 | `str.replace` of a pattern that occurs nowhere changes nothing |
| Strings.ReplaceSuffix | src/era5grib_parallel/cdo_era5grib.py:138 | when the only occurrence of the pattern is at the end, `str.replace` rewrites just that end |
| Strings.ReplaceCharConcat | src/era5grib_parallel/cdo_era5grib.py:87 | removing spaces distributes over concatenation |
| Strings.ReplaceCharRemoves | src/era5grib_parallel/cdo_era5grib.py:87 | `line.replace(" ", "")` leaves no space |
| Calendar.YearOfFacts | src/era5grib_parallel/nci_era5grib_parallel.py:83 | the year found for a day count holds that day and accounts for every day before it |
| Calendar.MonthOfFacts | src/era5grib_parallel/nci_era5grib_parallel.py:83 | the month found for a day of the year holds that day |
| Calendar.FromSecondsFacts | src/era5grib_parallel/nci_era5grib_parallel.py:83 | the calendar reading of an instant is a valid date-time naming that same instant |
| Calendar.FromToSeconds | src/era5grib_parallel/nci_era5grib_parallel.py:83 | every valid date-time is the calendar reading of exactly its own instant |
| Calendar.InstantBounds | src/era5grib_parallel/nci_era5grib_parallel.py:83 | the representable range ends at 1677-09-21T00:12:44 and 2262-04-11T23:47:16 |
| Calendar.InRangeIsRepresentable | src/era5grib_parallel/nci_era5grib_parallel.py:83 | every instant a Timestamp holds has a calendar reading |
| Calendar.PadFields | src/era5grib_parallel/cdo_era5grib.py:78 | each field of a valid date-time renders at its fixed width and denotes the field |
| Calendar.IsoLayout | src/era5grib_parallel/nci_era5grib_parallel.py:84 | `%Y-%m-%dT%H:%M:%S` is 19 characters with the fields at fixed positions |
| Calendar.CompactLayout | src/era5grib_parallel/cdo_era5grib.py:78 | `%Y%m%d%H%M.t+000` is 18 characters: twelve digits, then `.t+000` |
| Calendar.IsoRoundTrip | src/era5grib_parallel/cdo_era5grib.py:77 | strptime of what strftime wrote gives the same date-time |
| Calendar.IsoParsedFormats | src/era5grib_parallel/cdo_era5grib.py:77 | whatever strptime accepts is the strftime rendering of what it returns |
| Calendar.IsoInjective | src/era5grib_parallel/nci_era5grib_parallel.py:84 | two instants render to the same date string exactly when they are equal |
| Calendar.CompactSameMinute | src/era5grib_parallel/cdo_era5grib.py:78 | two instants share a compact stamp exactly when they fall in the same minute |
| Calendar.TupleOrder | src/era5grib_parallel/nci_era5grib_parallel.py:84 | an earlier instant has a smaller (year, month, day, hour, minute, second) tuple |
| Calendar.IsoOrder | src/era5grib_parallel/nci_era5grib_parallel.py:84 | date strings sort, as Python strings, in the order of the instants they name |
| Catalog.LinesFormatSpecs | src/era5grib_parallel/cdo_era5grib.py:32-53 | `fields()` lists 19 lines, the k-th being the "name, category, code" rendering of the k-th catalog entry |
| Catalog.ParseFormatLine | src/era5grib_parallel/cdo_era5grib.py:87-88 | unpacking a line with space removal, comma split and `int()` recovers the entry it was written from |
| Catalog.LinesParse | src/era5grib_parallel/cdo_era5grib.py:84-88 | every catalog line unpacks into three parts and parses to its entry, so the unpacking never raises |
| Catalog.StripLine | src/era5grib_parallel/cdo_era5grib.py:87 | removing the spaces of a line leaves the three parts joined by commas |
| Catalog.NamesDistinct | src/era5grib_parallel/cdo_era5grib.py:32-52 | no two catalog entries share a name |
| Catalog.Categories | src/era5grib_parallel/cdo_era5grib.py:32-52 | every entry is single- or pressure-level, and the pressure-level ones are exactly u, v, t, q |
| Catalog.CodesPositive | src/era5grib_parallel/cdo_era5grib.py:32-52 | every code is a positive table-128 parameter number |
| Catalog.NameShapes | src/era5grib_parallel/cdo_era5grib.py:32-52 | names are non-empty, hold no slash or space, and never start like the outputs |
| Naming.ArchiveDirComponents | src/era5grib_parallel/cdo_era5grib.py:90 | the archive directory's path components are the base's, then `<stype>-levels`, `reanalysis`, the name, the four-digit year |
| Naming.ArchiveDirInjective | src/era5grib_parallel/cdo_era5grib.py:90 | two fields read the same directory exactly when category, name and year agree |
| Naming.SelectMonthFileFirst | src/era5grib_parallel/cdo_era5grib.py:92-94 | the file chosen is the first listing entry containing the month token; there is none (IndexError) exactly when no entry contains it |
| Naming.MonthTokenFields | src/era5grib_parallel/cdo_era5grib.py:93 | the month token is six digits denoting the year and the month |
| Naming.RandomSuffixDigits | src/era5grib_parallel/cdo_era5grib.py:74-75 | removing `0.` from `0.<digits>` leaves exactly the digits |
| Naming.TargetNameDropsExtension | src/era5grib_parallel/cdo_era5grib.py:135-138 | `replace(".nc", "")` on the merged name only drops the final extension |
| Naming.TempNameInjective | src/era5grib_parallel/cdo_era5grib.py:97 | within a run, temporaries of distinct fields have distinct names |
| Naming.RunNamesDisjoint | src/era5grib_parallel/cdo_era5grib.py:97-147 | temporary, swap, merged and output names never clash |
| Naming.MergeCmdWords | src/era5grib_parallel/cdo_era5grib.py:142 | the merge command's words are `cdo --eccodes merge`, the temporaries in order, then the merged file |
| Repackager.OutputDir.Exists | src/era5grib_parallel/cdo_era5grib.py:136 | `os.path.exists` is membership in the directory |
| Repackager.OutputDir.Remove | src/era5grib_parallel/cdo_era5grib.py:137 | `os.remove` deletes that one file |
| Repackager.OutputDir.Move | src/era5grib_parallel/cdo_era5grib.py:115 | `mv` moves the file over any existing target; without a source nothing changes |
| Repackager.OutputDir.Cdo | src/era5grib_parallel/cdo_era5grib.py:143-148 | a cdo run writes its output from its inputs, or changes nothing when it fails |
| Repackager.OutputDir.Extract | src/era5grib_parallel/cdo_era5grib.py:98-108 | `cdo seldate` writes the temporary from the archive file, or changes nothing |
| Repackager.OutputDir.RewriteInPlace | src/era5grib_parallel/cdo_era5grib.py:111-131 | rewrite-to-`.1`-then-`mv` leaves the rewrite under the original name and no swap file |
| Repackager.PackageField | src/era5grib_parallel/cdo_era5grib.py:96-131 | one field touches only its temporary and swap file, and without failures leaves the temporary holding the field's chain |
| Repackager.PackageFields | src/era5grib_parallel/cdo_era5grib.py:82-133 | the field loop returns the temporaries in catalog order exactly when every lookup succeeds, else the first lookup error, with the temporaries of the fields before it left in place |
| Repackager.Cleanup | src/era5grib_parallel/cdo_era5grib.py:151-153 | deletes exactly the listed files that exist |
| Repackager.RemoveIfPresent | src/era5grib_parallel/cdo_era5grib.py:136-139 | the named file is absent afterwards and nothing else changes |
| Repackager.Finish | src/era5grib_parallel/cdo_era5grib.py:135-156 | stale removal, merge, conversion and cleanup, as one directory transformation |
| Repackager.Repackage | src/era5grib_parallel/cdo_era5grib.py:56-156 | bad timestamp changes nothing; success iff every lookup succeeds, else the first lookup error, leaving the finished temporaries behind; only the run's names change; on success only the output survives, it is the conversion of this run's merge, and with no failing command it holds the conversion of the merge of the fields |
| Repackager.CatalogWellNamed | src/era5grib_parallel/cdo_era5grib.py:32-52 | the catalog's fields can share one output directory |
| Repackager.RecordedFailure | src/era5grib_parallel/cdo_era5grib.py:92-94 | a lookup that fails after all earlier ones succeeded is the run's first failure |
| Repackager.FailureLeavesTemps | src/era5grib_parallel/cdo_era5grib.py:86-133 | a loop stopped at a failed lookup leaves the temporaries of every earlier field in the directory |
| Repackager.RecordedAll | src/era5grib_parallel/cdo_era5grib.py:86-133 | when the loop finishes, every field was found and the recorded contents are the expected ones |
| Repackager.TempsDistinct | src/era5grib_parallel/cdo_era5grib.py:97 | temporaries of distinct entries differ and none is another's swap file |
| Repackager.FieldLoopStep | src/era5grib_parallel/cdo_era5grib.py:86-133 | one field loop iteration keeps the loop's frame and extends the finished temporaries |
| Repackager.FinishFrame | src/era5grib_parallel/cdo_era5grib.py:135-156 | the final steps touch only the temporaries, the merged file and the output |
| Repackager.FinishClears | src/era5grib_parallel/cdo_era5grib.py:135-156 | afterwards the temporaries and merged file are gone, and an output present is the conversion of this merge of the temporaries, whatever failed: a stale output never survives |
| Repackager.FinishOutput | src/era5grib_parallel/cdo_era5grib.py:142-148 | with no failure the output is the conversion of the merge of the temporaries, in order |
| Repackager.RunNameFacts | src/era5grib_parallel/cdo_era5grib.py:97-147 | the names one run writes never clash across kinds |
| Repackager.RunFrame | src/era5grib_parallel/cdo_era5grib.py:135-156 | a successful run changes nothing outside its names and leaves only the output among them |
| Repackager.RunExact | src/era5grib_parallel/cdo_era5grib.py:56-156 | with no failure, a successful run replaces its names by the expected output |
| Scheduler.DateStringParses | src/era5grib_parallel/cdo_era5grib.py:77 | strptime of a generated date gives the instant it was made from |
| Scheduler.Advance | src/era5grib_parallel/nci_era5grib_parallel.py:83 | `sd + timedelta(seconds=i * freq)` yields the i-th instant exactly when the step fits a Timedelta and the sum a Timestamp, and raises otherwise |
| Scheduler.StepBeyondTimedelta | src/era5grib_parallel/nci_era5grib_parallel.py:83 | a step of 9300000000 s from the earliest Timestamp lands in range yet raises, because it exceeds a Timedelta |
| Scheduler.AppendDate | src/era5grib_parallel/nci_era5grib_parallel.py:83-85 | appending the next formatted instant keeps the list formatted and extends it by one |
| Scheduler.GenerateDates | src/era5grib_parallel/nci_era5grib_parallel.py:79-85 | Ok exactly when every step fits a Timedelta and every sum a Timestamp; then `max(count, 0)` dates, the k-th being start + k·freq formatted; else the first index whose addition raises |
| Scheduler.DatesDistinct | src/era5grib_parallel/nci_era5grib_parallel.py:82-84 | with a non-zero step no two generated dates are equal |
| Scheduler.DatesIncrease | src/era5grib_parallel/nci_era5grib_parallel.py:82-84 | with a positive step later dates sort after earlier ones |
| Scheduler.DateOrder | src/era5grib_parallel/nci_era5grib_parallel.py:84 | a later instant formats to a string that sorts later |
| Scheduler.OutputsCollide | src/era5grib_parallel/cdo_era5grib.py:77-78 | two generated dates share an output file exactly when they fall in the same minute |
| Scheduler.SubMinuteStepCollides | src/era5grib_parallel/nci_era5grib_parallel.py:75-83 | a 30 s step from a whole minute sends the first two tasks to the same output file |
| Scheduler.Partition | src/era5grib_parallel/nci_era5grib_parallel.py:91 | there is always at least one group |
| Scheduler.PartitionFlatten | src/era5grib_parallel/nci_era5grib_parallel.py:91-98 | the groups concatenated give back every date, in order |
| Scheduler.PartitionCount | src/era5grib_parallel/nci_era5grib_parallel.py:91 | there are len/4 + 1 groups |
| Scheduler.PartitionAt | src/era5grib_parallel/nci_era5grib_parallel.py:91-98 | group k is the slice from 4k to min(4k + 4, len) |
| Scheduler.PartitionShape | src/era5grib_parallel/nci_era5grib_parallel.py:91-98 | every group holds at most four dates and is the slice at its offset |
| Scheduler.LastChunkEmpty | src/era5grib_parallel/nci_era5grib_parallel.py:91 | the last group is empty exactly when the length is a multiple of four |
| Scheduler.ChunkExamples | src/era5grib_parallel/nci_era5grib_parallel.py:91-98 | five dates make groups of 4 and 1; four dates make groups of 4 and 0 |
| Scheduler.Subset | src/era5grib_parallel/nci_era5grib_parallel.py:92-98 | the inner loop collects the dates from the offset to min(offset + 4, len), skipping missing indices |
| Scheduler.ChunkIsPartition | src/era5grib_parallel/nci_era5grib_parallel.py:91-98 | the group the loop handles at offset 4k is the k-th group |
| Scheduler.SubmitChunk | src/era5grib_parallel/nci_era5grib_parallel.py:101-110 | the submitting comprehension submits every date of the group, in order |
| Scheduler.AwaitSubset | src/era5grib_parallel/nci_era5grib_parallel.py:111 | the awaiting comprehension awaits in order until a task raises |
| Scheduler.AwaitChunkCompletes | src/era5grib_parallel/nci_era5grib_parallel.py:111 | a group none of whose tasks raises is awaited in full |
| Scheduler.AwaitChunkStops | src/era5grib_parallel/nci_era5grib_parallel.py:111 | awaiting stops right after the first task that raises |
| Scheduler.AwaitChunkFacts | src/era5grib_parallel/nci_era5grib_parallel.py:111 | a group completes exactly when none of its tasks raises, otherwise stops at the first that does; what it awaits is a prefix of the group |
| Scheduler.RunBatch | src/era5grib_parallel/nci_era5grib_parallel.py:89-111 | the offset loop produces exactly the run that per group submits all, then awaits all, until a raise |
| Scheduler.RunAdvance | src/era5grib_parallel/nci_era5grib_parallel.py:91-111 | one pass of the offset loop either ends the run or hands over to the next offset |
| Scheduler.RunEnd | src/era5grib_parallel/nci_era5grib_parallel.py:91 | past the last offset nothing remains to run |
| Scheduler.RunOutcome | src/era5grib_parallel/nci_era5grib_parallel.py:89-111 | the batch completes exactly when no task raises, otherwise it stops at the first task that raises |
| Scheduler.RunTrace | src/era5grib_parallel/nci_era5grib_parallel.py:89-111 | any run's events are a prefix of the raise-free run's, and all of them when it completes |
| Scheduler.FullTraceLength | src/era5grib_parallel/nci_era5grib_parallel.py:89-111 | with no raise the run has two events per date from the offset on |
| Scheduler.FullTraceKinds | src/era5grib_parallel/nci_era5grib_parallel.py:89-111 | with no raise the submits, in order, are one per date in date order, and so are the awaits: every date is submitted once and awaited once |
| Scheduler.OfKindConcat | src/era5grib_parallel/nci_era5grib_parallel.py:101-111 | selecting the submits (or awaits) of a concatenation concatenates the selections |
| Scheduler.FullTraceIndices | src/era5grib_parallel/nci_era5grib_parallel.py:101-111 | every event is for a date of the list and carries that date |
| Scheduler.FullTraceBarrier | src/era5grib_parallel/nci_era5grib_parallel.py:89-111 | with no raise, no task is submitted before every task of an earlier group has been awaited |
| Scheduler.BlockIndices | src/era5grib_parallel/nci_era5grib_parallel.py:101-111 | a group's events are for that group's dates |
| Scheduler.RunBarrier | src/era5grib_parallel/nci_era5grib_parallel.py:89-111 | every run, raising or not, awaits a group before submitting the next |
| Scheduler.RunAbortLength | src/era5grib_parallel/nci_era5grib_parallel.py:89-111 | a run stopped at task i submitted all of i's group and earlier groups, awaited up to i, and nothing of later groups |

## Left out

- The cdo tool's semantics: its outputs are terms over the command line and input contents, and which command lines fail is a parameter. A failed cdo run is taken to leave no partial output file.
- `os.system` exit statuses: they are ignored by the source, so a failing command only changes what files exist.
- `mv` failures other than a missing source or a move onto itself.
- `random()` and its `"%10.10f"` rendering: the suffix is a parameter `r`, and `Naming.RandomSuffixDigits` covers the `replace("0.", "")` step.
- `os.chdir(outdir)`: the model works on a single output directory.
- `os.listdir`: the listings are a map from directory to names; a missing directory is `FileNotFoundError` (`MissingArchiveDir`).
- The multiprocessing pool: concurrency, worker processes, the 600 s timeout and `os.getpid()`. Task results are not modelled, only which tasks raise (the `raises` set). The model states only the driver's submit/await order.
- `argparse` and `pandas.to_datetime` parsing of the command line: `--start` arrives as an instant in whole seconds. Time zones and fractional seconds are not modelled.
- `print`, and the unused `start_date` computed in `main`.
- Scheduler.GenerateDates: assumes `pandas.to_datetime` returns a nanosecond-resolution Timestamp, as pandas releases before 3.0 do. A coarser resolution would widen both the Timestamp range and the Timedelta bound. The bounds are whole seconds, so the fractional second at each end of pandas' ranges is not modelled. Which exception is raised (an out-of-bounds Timedelta or Timestamp, or Python's timedelta overflow) is not distinguished.
- Calendar.ParseIso: models strptime on the zero-padded layout only. It does not model that strptime also accepts unpadded fields (e.g. `2024-1-5T3:4:5`), a lowercase `t` separator (the format matches case-insensitively) and non-ASCII decimal digits. The driver only passes strings it formatted itself, which are always padded.
- Strings.ParseInt: `int()` without surrounding whitespace or digit-group underscores. Catalog lines never contain either.
- A parse failure of a `fields()` line is not an error path of the model: `Catalog.LinesParse` proves that it cannot happen.
