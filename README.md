# backup-script in Dafny

A model of the logic in `backup.py`, a script that periodically snapshots
SQLite databases and uploads the snapshots to a Google Drive folder. Four
parts of it are modelled and proved:

- **Names** (`names.dfy`, module `Names`): how `backup_db` splits a database
  path at its last period (`rfind` and Python slicing, including the slice
  bound -1 that `rfind` returns when there is no period), the local artifact
  `<base>_backup<ext>`, the `strftime('%d/%m/%y_%H:%M')` timestamp and the
  remote title `<base>_<DD/MM/YY_HH:MM><ext>`.
- **Startup** (`startup.dfy`, module `Startup`): the comprehension that
  collects the database names without a period, and the decision to start
  `main` only when there are none.
- **Executor** (`executor.dfy`, module `Executor`): the `for` loop of
  `backup_db` as a method over the database list. It uses one timestamp for
  every database and stops at the first failure. Each database's snapshot
  and upload succeed or fail according to an input outcome. The method
  returns the artifacts written, the uploads made and where the cycle
  stopped.
- **Scheduler** (`scheduler.dfy`, module `Scheduler`): the `while True`
  loop of `main` as a method. It keeps the `backoff` flag and builds the
  trace of what the loop does: sleeps, cycles begun, log lines, the exit. It
  is proved equal to a specification function (`Schedule`, built from the
  one-iteration decision `Step`). Each iteration's inputs are an `Attempt`:
  how the cycle ended, and the clock readings the loop took.

Two points of the code's behaviour are easy to misread, and the model
follows the code in both:

- A sleep length of exactly zero is a normal sleep, since `time.sleep(0)`
  raises nothing. Only a negative length raises the `ValueError` that is
  logged as an overrun.
- The split looks for the last period in the whole path, not only in the
  file name. The startup check likewise accepts a period anywhere in the
  path. So `./data/db` passes the check and splits into base `""` and
  extension `./data/db` (`Startup.DirectoryPeriodExample`).

`time.sleep` also refuses lengths it cannot hold: CPython converts the
length to nanoseconds in a signed 64-bit integer and raises `OverflowError`
for more than 9223372036 seconds either way (`Scheduler.SleepMax`). Neither
the initial sleep (line 44) nor the interval sleep (line 64, which catches
only `ValueError` and `KeyboardInterrupt`) handles it, so such a length ends
the program; the model records this as the status `Crashed`.

The back-off wait is the literal `300` at backup.py:49. `BACK_OFF_INTERVAL`
at line 14 has the same value and is modelled as `Scheduler.BackOff`. The
method writes the literal, and the proof shows it agrees with the
specification's `BackOff`.

## Model

| member | source | states |
|---|---|---|
| `Names.RFind` | backup.py:19 | `rfind('.')` gives an index inside the string or -1; which index it is, is stated by `RFindLast` |
| `Names.RFindLast` | backup.py:19 | `rfind('.')` gives -1 exactly when there is no period; otherwise the index holds a period and no period follows it |
| `Names.Find` | backup.py:82 | `find('.')` gives -1 exactly when there is no period; otherwise the index holds the first period |
| `Names.PyIndex` | backup.py:20-21 | a Python slice bound lands within the string, and a bound already in range is kept as is |
| `Names.SplitName` | backup.py:19-21 | the base followed by the extension is the path again, for every path |
| `Names.SplitAtLastPeriod` | backup.py:19-21 | for a path with a period, the extension starts with that period and holds no other; the base is as long as the `rfind` index |
| `Names.SplitNameUnique` | backup.py:19-21 | any base and period-led extension without another period that form the path are exactly the split's: the split is at the last period |
| `Names.SplitNameWithoutPeriod` | backup.py:19-21 | a non-empty path without a period splits into all but its last character and that character, since the slice bound is -1 |
| `Names.ArtifactSplit` | backup.py:24 | the artifact name keeps the database's extension, and its base is the database's base plus `_backup` |
| `Names.ArtifactName` | backup.py:24 | the local file `<base>_backup<ext>` that the snapshot is written to and that line 32 uploads; how it splits is stated by `ArtifactSplit` |
| `Names.Pad2` | backup.py:13 | a number below 100 prints as two decimal digits that read back as the number |
| `Names.Format` | backup.py:30 | the formatted timestamp is 14 characters long and holds no period |
| `Names.ParseFormat` | backup.py:13 | the text `DD/MM/YY_HH:MM` reads back as day, month, year within the century, hour and minute |
| `Names.FormatInjective` | backup.py:13 | two timestamps give the same text only if they show the same fields |
| `Names.Title` | backup.py:30 | the remote title `<base>_<timestamp><ext>`; how it splits and where the timestamp sits are stated by `TitleSplit` and `TitleStamp` |
| `Names.TitleSplit` | backup.py:30 | the title keeps the database's extension; its base is the database's base, `_` and the formatted timestamp |
| `Names.TitleStamp` | backup.py:30 | the timestamp can be read back from the title, right after the base and its `_` |
| `Names.FormatExample` | backup.py:13 | 3 May 2024 at 14:05 prints as `03/05/24_14:05` |
| `Names.SplitExample` | backup.py:19-21 | `data.db` splits into `data` and `.db` |
| `Names.TitleExample` | backup.py:24-30 | for `data.db` at that time the title is `data_03/05/24_14:05.db` and the artifact is `data_backup.db` |
| `Startup.NameErrors` | backup.py:82 | a name is reported exactly when it is one of the given names and has no period; there are no more reports than names |
| `Startup.NameErrorsAppend` | backup.py:82 | the reports for two lists in a row are the reports for the first then those for the second, so input order is kept |
| `Startup.NameErrorsSingle` | backup.py:82 | a single name is reported exactly when it has no period |
| `Startup.Startup` | backup.py:82-86 | `main` is started exactly when every name has a period; otherwise the report is exactly `NameErrors`: every period-less name, in input order, and it is not empty |
| `Startup.StartedNamesSplit` | backup.py:82-86 | once started, every database name splits into a base and a proper extension that give the name back |
| `Startup.DirectoryPeriodExample` | backup.py:82-86 | `./data/db` passes the check and splits inside its directory part |
| `Executor.Artifacts` | backup.py:24 | there is one artifact per database |
| `Executor.Uploads` | backup.py:30-33 | there is one upload per database |
| `Executor.ArtifactsAt` | backup.py:24 | the i-th artifact is the artifact name of the i-th database |
| `Executor.UploadsAt` | backup.py:30-33 | the i-th upload is the upload for the i-th database with the cycle's timestamp |
| `Executor.UploadFor` | backup.py:30-33 | the file created for one database: the timestamped title, the folder id, and the artifact as its content; its properties are stated by `UploadsMatchArtifacts` and `UploadNames` |
| `Executor.UploadsMatchArtifacts` | backup.py:24-32 | each upload reads the very file the snapshot of the same database wrote, goes to the given folder, and is titled with the cycle's one timestamp |
| `Executor.UploadNames` | backup.py:30-32 | for a name with a period, the title and the uploaded file keep the database's extension, and the title carries the cycle's timestamp |
| `Executor.BackupAll` | backup.py:17-33 | databases go in list order. The cycle completes exactly when every database succeeds. A failure at k aborts with exactly databases 0..k-1 uploaded, the k-th snapshot written only if its upload failed, and nothing after k touched. Artifacts and uploads are the specification's for that prefix |
| `Scheduler.Step` | backup.py:46-69 | the back-off wait comes first exactly when the flag is set. An interrupt during the cycle, or during a sleep `time.sleep` accepts, stops; a sleep length beyond `SleepMax` either way raises the uncaught overflow. A failure gives `Continue`; after any outcome that neither stops nor overflows, the flag is set exactly when the cycle failed. An overrun is logged exactly when the cycle outlasted the interval by no more than `SleepMax`. Otherwise the sleep lasts at most `SleepMax` and ends `interval` seconds after the cycle's start |
| `Scheduler.Events` | backup.py:48-69 | the events of one iteration: the back-off sleep if the flag is set, the start of the cycle, and the event of `Step`'s action; `IterationEvents` states what they hold |
| `Scheduler.LoopFrom` | backup.py:46-69 | the loop from one iteration on, ending at a stop, an overflow or the last attempt; `LoopStatus`, `LoopRunsOn`, `LoopEndsAt` and `NextIteration` state its properties |
| `Scheduler.Schedule` | backup.py:44-69 | `main` after the folder lookup: the initial sleep, then the loop; `ScheduleStatus` states its properties |
| `Scheduler.MainLoop` | backup.py:44-69 | the loop with its mutable `backoff` flag and `now` produces exactly the trace and final status of the specification `Schedule` |
| `Scheduler.IterationEvents` | backup.py:47-69 | every iteration begins exactly one cycle; it ends with the exit exactly when interrupted and with the escaping exception exactly when its sleep overflows, and neither appears earlier in it |
| `Scheduler.LoopStatus` | backup.py:47-69 | the loop is still running after the attempts exactly when none of them interrupts or overflows; it stops exactly when the first attempt that ends it is an interrupt, and crashes exactly when that attempt's sleep overflows |
| `Scheduler.LoopRunsOn` | backup.py:47-69 | without an interrupt or an overflowing sleep, every attempt begins a cycle, however many fail, and the loop neither exits nor crashes |
| `Scheduler.LoopEndsAt` | backup.py:53-69 | the first attempt at k that ends the loop ends it after exactly the cycles up to k; the last event is the exit for an interrupt and the escaping exception for an overflow, and neither occurs before it |
| `Scheduler.NextIteration` | backup.py:48-61 | after a failed cycle the next iteration first sleeps 300 s, then begins its cycle; after a success that does not end the loop, the next cycle begins without a back-off sleep |
| `Scheduler.ScheduleStatus` | backup.py:44-69 | an initial delay that is negative or beyond `SleepMax` ends `main` with an uncaught exception before any cycle; otherwise `main` sleeps the delay first, runs on exactly when no attempt ends the loop, and stops exactly when the first attempt that ends it is an interrupt |

## Left out

- Google Drive: authentication, the folder query and its unchecked `[0]` (backup.py:37-42), and `CreateFile`/`SetContentFile`/`Upload`. An upload is an abstract success or failure (`Executor.DbOutcome`). The upload records the title, the folder id and the uploaded file's name, not bytes.
- The sqlite3 connection and online backup (backup.py:23-28): a foreign library. A snapshot either writes the artifact or fails. The consistency of the copy is not modelled.
- The real clock, real sleeping and `datetime.fromtimestamp`'s local-time conversion. Clock readings are integers in `Scheduler.Attempt`, and timestamps arrive already split into fields (`Names.Stamp`). Float seconds are not modelled.
- `Scheduler.LoopStatus`: an interrupt that arrives outside a cycle and outside the interval sleep is not modelled. At the back-off sleep (line 49), the clock read (line 50), the exit message (lines 54, 68) or the log calls (lines 57, 66) it escapes uncaught and ends the program. An `Attempt` has no such case, so the statuses `Live` and `Stopped` assume none arrives there.
- `Scheduler.ScheduleStatus`: as for `LoopStatus`, and an interrupt during the initial delay (line 44) is not modelled either; it too escapes uncaught.
- The scheduler and the executor are joined only through `Attempt`: a cycle's success or failure is an input to the scheduler. It is not derived from `Executor.BackupAll`, because the executor's stamp is the split local time of the scheduler's float `now`.
- argparse (backup.py:73-80), logging setup (line 10) and printed messages. The model records a log line or an exit as an event but not its text. One consequence is not modelled: `--interval` or `--delay` given without a value yields `None` through `nargs='?'`, and the sleep call then raises `TypeError`.
- `Scheduler.MainLoop`: the loop runs until an interrupt, an overflowing sleep, or until the given attempts run out. `while True` has no end, so the finite sequence of attempts is the horizon observed; the status `Live` means the loop was still running there.
