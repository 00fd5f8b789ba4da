# A verified model of `backup_config.py`

`backup_config.py` is a single-user configuration backup script. Each run does two things:

- It zips a fixed list of dot-files and dot-directories from the home directory into
  `~/ConfigBackups/config_backup_<YYYYmmdd_HHMMSS>.zip`.
- It then prunes that directory. It keeps only the `MAX_BACKUPS` archives whose names
  sort last, and deletes the older ones.

This project models both halves. It proves what the script relies on but never checks:

- Archive names sort in stamp order, so "last in sorted order" means "latest stamp".
- The pruner deletes only archives, always oldest first, and exactly as many as needed.
  It stays oldest-first even when a removal fails part-way.
- Successful runs at increasing times keep exactly the archives of the last `MAX_BACKUPS`
  runs. This needs three things: the directory starts with no archives,
  `MAX_BACKUPS` ≥ 1, and no pruning pass meets a failure.
- The archive holds a file's entry exactly when the file is readable beneath a
  configured item and writing it did not fail.
- A failed archive is removed again, and no pruning happens after it. The exception is
  when that removal itself raises: the exception escapes and the archive stays.

The five modules follow the script's structure:

| module | file | what |
|---|---|---|
| `Sequences` | `sequences.dfy` | element sets, distinctness, concatenating parts |
| `LexOrder` | `lex_order.dfy` | Python's `<` on `str`, and `sorted` as a proved insertion sort |
| `Naming` | `naming.dfy` | the `strftime('%Y%m%d_%H%M%S')` stamp, the archive name, the name test |
| `Retention` | `retention.dfy` | `cleanup_old_backups`: the pure choice of victims, its set-level properties, the directory as a class and the deletion loop |
| `Archiver` | `archiver.dfy` | `create_backup`: which entries each item adds, the failure policy, the whole run |

How the pieces are modelled:

- **Backup directory.** It is a set of names held in the `OutputDir` class.
  - `os.listdir` returns them in an unspecified order.
  - `ListingOrderIrrelevant` shows that this order cannot change what is deleted.
- **Source tree.** It is a map from paths (sequences of components) to `File` or `Dir`.
- **Failures.** They are inputs, in `Faults` and `PruneFaults`:
  - `os.makedirs` raising;
  - the archive failing when it is opened or when it is closed;
  - directories that `os.walk` cannot list (it skips them silently);
  - files whose `zipf.write` raises;
  - `os.listdir` raising;
  - individual `os.remove` calls raising.
- **Outcome of `create_backup`.** `Outcome` records whether it returns `True` or `False`,
  or raises.
  - The `os.makedirs` call is outside the `try`.
  - The `os.remove` of the broken archive is inside the `except`.
  - Either of these can let an exception escape.
- **Retention count.** `MAX_BACKUPS` is a parameter; the script sets it to 7.
  - Python's `backups[:-0]` is the empty list, so a count of 0 would delete nothing.
  - `DropLast` models this as written.
- **Same-second name clash.** A failed run whose stamp equals that of an existing archive
  (a second run within the same second) removes that earlier archive. `Effect` makes this
  visible: after `Returned(false)` the directory is `before - {BackupName(now)}`.

## Model

| member | source | states |
|---|---|---|
| LexOrder.Sort | backup_config.py:100-101 | `sorted` of a list of names gives a list that is non-decreasing in Python's string order, with the same elements and multiplicities |
| LexOrder.SortedUnique | backup_config.py:100-101 | two sorted lists with the same multiset are equal, so the sort does not depend on the order of its input |
| LexOrder.SortDeterminedByMultiset | backup_config.py:100-101 | sorting two listings of the same multiset gives the same list |
| LexOrder.BelowIsLexicographic | backup_config.py:100 | `Below`, the model of Python's `str <` that `sorted` uses, holds exactly when the left string is a proper prefix of the right, or has the smaller code point at the first position where they differ |
| LexOrder.BelowTrichotomy | backup_config.py:100 | Python's string `<` is total: two strings are equal or one is below the other |
| LexOrder.BelowTransitive | backup_config.py:100 | Python's string `<` is transitive |
| Naming.BackupNameShape | backup_config.py:100-101 | `IsBackupName`, the `startswith('config_backup_') and endswith('.zip')` test, holds exactly when the name is the prefix, a middle part and `.zip` one after the other; the two cannot overlap |
| Naming.ClockText | backup_config.py:51 | the `%H%M%S` part of the stamp is six decimal digits |
| Naming.Digits | backup_config.py:51 | a `%Y`/`%m`/`%d`/`%H`/`%M`/`%S` field has exactly its fixed width, all decimal digits |
| Naming.DigitsOrder | backup_config.py:51 | zero-padded numerals of one width compare as strings exactly as the numbers compare, and are equal only for equal numbers |
| Naming.StampText | backup_config.py:51 | the stamp is 15 characters, with `_` between date and time |
| Naming.BackupName | backup_config.py:51-52 | every archive name the backup creates passes the pruner's `startswith`/`endswith` test, and all have the same length |
| Naming.StampOrder | backup_config.py:51 | one stamp text is below another exactly when its time is earlier; equal texts only for equal times |
| Naming.NameOrder | backup_config.py:51-52 | one archive name sorts below another exactly when its time is earlier, and two times give the same name only when equal |
| Retention.Filter | backup_config.py:100-101 | the comprehension keeps each archive-looking name as often as the listing has it, and drops every other name |
| Retention.DropLast | backup_config.py:104 | `backups[:-k]` is a prefix of `backups`. For `k > 0` it drops the last `k` names (or all of them when there are no more than `k`). For `k = 0` it is empty, because `[:-0]` is `[:0]` |
| Retention.SelectOld | backup_config.py:100-104 | the names chosen for deletion are archive names taken from the listing, each at most as often as it is listed |
| Retention.ListingOrderIrrelevant | backup_config.py:100-104 | any listing of the directory, in any order, selects the same deletions |
| Retention.Prune | backup_config.py:97-107 | a pass without failures deletes only archive names, and keeps every other file |
| Retention.SortedBackups | backup_config.py:100-101 | the sorted archive names are strictly increasing and are exactly the directory's archive names |
| Retention.PruneFew | backup_config.py:103 | with at most `MAX_BACKUPS` archives nothing is selected and the directory is unchanged |
| Retention.PruneOldest | backup_config.py:103-106 | with more than `MAX_BACKUPS` archives, exactly the surplus is deleted, in increasing order, each below every archive kept, leaving `MAX_BACKUPS` |
| Retention.PruneCount | backup_config.py:97-107 | for `MAX_BACKUPS` ≥ 1, a pass leaves min(n, `MAX_BACKUPS`) archives and the same non-archive files |
| Retention.PruneIdempotent | backup_config.py:97-107 | a second pass right after a first selects nothing and changes nothing |
| Retention.PruneKeepsMostRecent | backup_config.py:98-106 | of two archives made by the backup, a deleted one has an earlier time than a kept one |
| Retention.ChronologicalNamesIncreasing | backup_config.py:51-52 | the names of runs at increasing times are in increasing string order |
| Retention.RunsKeepMostRecent | backup_config.py:97-107 | from no archives and with `MAX_BACKUPS` ≥ 1, successful runs at increasing times whose pruning passes meet no failure leave exactly the archives of the last min(k, `MAX_BACKUPS`) runs, and the other files |
| Retention.ClockSetBackDeletesNewer | backup_config.py:51-52 | when the clock is set back between two runs from no archives and `MAX_BACKUPS` is 1, the second pass deletes the newer archive and keeps the older one |
| Retention.RemovedBeforeFailure | backup_config.py:104-109 | the deleted names are the longest prefix of the victims with no failing removal, and the loop stopped at a failing one |
| Retention.RemovedAllWithoutFailures | backup_config.py:104-106 | without failing removals the loop deletes every victim |
| Retention.AfterCleanup | backup_config.py:97-109 | a pass deletes only archives; a failing listing deletes nothing; without failures it is `Prune` |
| Retention.CleanupOldestFirst | backup_config.py:104-109 | even a pass that a failing removal cut short deleted only names that sort below every archive left |
| Retention.CleanupKeepsGreatest | backup_config.py:103-109 | with a retention count of at least 1, no pass, whatever it meets, deletes the greatest archive name |
| Retention.OutputDir.ListDir | backup_config.py:100 | `os.listdir` yields each name of the directory exactly once, in some order |
| Retention.OutputDir.Create | backup_config.py:56 | opening the archive for writing adds its name |
| Retention.OutputDir.Remove | backup_config.py:106 | `os.remove` succeeds exactly when the name exists and its removal does not fail; only then is the name gone |
| Retention.OutputDir.RemoveInOrder | backup_config.py:104-107 | the loop removes the victims in order and stops at the first failure; the directory loses exactly `RemovedBeforeFailure` |
| Retention.OutputDir.CleanupOldBackups | backup_config.py:97-109 | the directory afterwards is `AfterCleanup` of the directory before |
| Archiver.Relpath | backup_config.py:68 | the relative name, appended to home, gives back the file's path |
| Archiver.WalkSkipsUnreadable | backup_config.py:64 | `Walked`, the model of `os.walk(source)`, silently skips an unlistable directory: no file beneath one at or below the source is yielded |
| Archiver.EntriesAreRelativeFiles | backup_config.py:60-78 | `Contributes`, the entries of one item: every entry is a file of the tree, beneath its item, named relative to home, whose write did not fail |
| Archiver.FileItemContributesItself | backup_config.py:74-78 | an item that is a file contributes exactly itself, named relative to home, unless writing it fails |
| Archiver.DirectoryItemComplete | backup_config.py:62-73 | every file that `os.walk` reaches beneath a directory item, and whose write succeeds, becomes an entry |
| Archiver.MissingItemContributesNothing | backup_config.py:60-82 | an item that does not exist adds nothing |
| Archiver.AddItem | backup_config.py:58-82 | one item adds each of its entries once, and an entry exactly when it is contributed |
| Archiver.WriteEntries | backup_config.py:56-82 | the archive is the items' contributions in configured order; an entry is present exactly when some item contributes it |
| Archiver.ArchiveDistinct | backup_config.py:24-43 | when no item is a path prefix of another, as with the configured list, no entry is written twice |
| Archiver.Discard | backup_config.py:89-93 | the `except` branch never reports success. It removes at most the archive's name. It raises exactly when the archive exists and its removal fails, and then nothing changes. When it returns `False` the archive is gone |
| Archiver.DiscardPartial | backup_config.py:91-93 | the directory and outcome after the `except` branch are `Discard` |
| Archiver.Effect | backup_config.py:46-95 | success exactly when neither the directory nor the archive raises; pruning failures do not matter. A run that returns `False` leaves no archive of this name and prunes nothing. A run that raises prunes nothing and may leave the archive, when its removal raised. Success prunes the directory with the new archive. A directory that cannot be created changes nothing |
| Archiver.CreateBackup | backup_config.py:46-95 | the outcome and directory are `Effect` of the directory before; an archive that could be opened holds exactly the contributions |
| Archiver.SuccessfulRunPrunes | backup_config.py:84-87 | a run that returns `True`, and whose pruning pass meets no failure, leaves `Prune` of the directory plus its new archive |
| Archiver.BackupsAreRuns | backup_config.py:46-95 | with no directory, archive or pruning failures, a series of `create_backup` runs leaves the directory `AfterRuns` describes, so `RunsKeepMostRecent` applies to it |
| Archiver.NewestArchiveSurvives | backup_config.py:84-87 | a successful run at a time later than every existing archive keeps its own archive, whatever the pruning pass meets |

## Left out

- Logging. It has no effect on the directory or the result.
- Archive encoding, compression (`ZIP_DEFLATED`) and file contents. The archive is modelled
  as its sequence of entry names.
- The order of entries within a directory item. `os.walk` order is unspecified, so
  `AddItem` picks files in an arbitrary order. Its contract states the set of entries and
  that none repeats, not their order.
- The clock. `datetime.now()` is the `now` parameter.
- The clock is assumed to move forward between runs (`Chronological`). A local clock that
  is set back gives a newer archive an earlier name, and pruning then deletes it first;
  `ClockSetBackDeletesNewer` shows this.
- `HOME`, `BACKUP_ITEMS` and `MAX_BACKUPS` are parameters (`Config`), not the script's
  constants. `ArchiveDistinct` states the property of the configured list.
- The `__main__` block. It only logs the result.
- Symbolic links, and `os.walk` following none of them.
- Output directory location. The backup directory is assumed not to lie beneath any
  configured item.
- Partial failures. A write that fails part-way is modelled as writing no entry. An
  archive fault is modelled only at open or at close; a mid-way fault that corrupts the
  archive is not.
- Exceptions other than the failures listed above: for example, a logging handler that
  raises, or memory exhaustion. A non-`Exception` error such as `KeyboardInterrupt`
  escaping the `try` is also not modelled.
- Naming.StampText: this pads the year to four digits for every year from 1 to 9999, as
  the platform the script targets does. Some C libraries do not pad years below 1000.
- When `os.path.join(HOME, item)` is given an absolute `item`, it discards `HOME`. This
  is not modelled: items are paths relative to home.
