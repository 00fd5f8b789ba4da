/**
 * The archiver, `create_backup` (backup_config.py, lines 46-95). For each
 * configured item under the home directory it adds to a new archive either
 * the item itself (a file) or every file beneath it (a directory), each
 * under its path relative to home; a missing item is skipped. Failures are
 * absorbed per file and per item; a failure of the archive itself removes
 * the partial file and reports failure; after a written archive the
 * retention pruner runs.
 *
 * The filesystem the items are read from is a map from paths (sequences of
 * components) to nodes. The archive is the sequence of its entry names.
 * Failures are given by a `Faults` oracle instead of being raised.
 */
module Archiver {
  import opened Sequences
  import opened Naming
  import opened Retention

  type Path = seq<string>

  datatype Node = File | Dir

  /** The source filesystem: the kind of node at each existing path. */
  type Tree = map<Path, Node>

  /** `HOME`, `BACKUP_ITEMS` (each a path relative to home) and `MAX_BACKUPS`. */
  datatype Config = Config(home: Path, items: seq<Path>, maxBackups: nat)

  /** Where the archive itself fails, if it does. */
  datatype ArchiveFault =
    | NoArchiveFault
    | FailsAtOpen   // `zipfile.ZipFile(...)` raises: nothing is written
    | FailsAtClose  // writing the end of the archive raises after every entry was written

  /** Which operations raise in one run. */
  datatype Faults = Faults(
    makedirsFails: bool,     // `os.makedirs(BACKUP_DIR, exist_ok=True)` raises
    archive: ArchiveFault,
    unreadable: set<Path>,   // directories `os.walk` cannot list; it skips them silently
    writeFails: set<Path>,   // source files whose `zipf.write` raises
    prune: PruneFaults)      // what the pruning pass meets

  /** How `create_backup` ends: it returns a boolean or lets an exception escape. */
  datatype Outcome = Returned(success: bool) | Raised

  /** `os.path.relpath(p, home)` for a path beneath home. */
  function Relpath(p: Path, home: Path): (r: Path)
    requires |home| <= |p| && p[..|home|] == home
    ensures home + r == p
  {
    p[|home|..]
  }

  /**
   * `os.walk(source)` yields `p` as a file: `p` is a file strictly beneath
   * `source`, and every directory from `source` down to its parent exists
   * and can be listed.
   */
  predicate Walked(tree: Tree, unreadable: set<Path>, source: Path, p: Path)
  {
    |source| < |p| && p[..|source|] == source && p in tree && tree[p] == File &&
    forall k :: |source| <= k < |p| ==> p[..k] in tree && tree[p[..k]] == Dir && p[..k] !in unreadable
  }

  /**
   * The archive entry `e` belongs to configured item `item`. For a
   * directory: `home + e` is a file `os.walk` finds beneath it. For a file:
   * `e` is the item itself. In both cases only if writing it does not fail.
   */
  predicate Contributes(home: Path, tree: Tree, faults: Faults, item: Path, e: Path)
  {
    var source := home + item;
    source in tree &&
    if tree[source] == Dir then
      Walked(tree, faults.unreadable, source, home + e) && home + e !in faults.writeFails
    else
      e == item && source !in faults.writeFails
  }

  /**
   * `os.walk` skips what lies beneath a directory it cannot list, without
   * raising: no file below an unlistable directory at or beneath the source
   * is walked, and an unlistable source yields nothing.
   */
  lemma WalkSkipsUnreadable(tree: Tree, unreadable: set<Path>, source: Path, d: Path, p: Path)
    requires d in unreadable
    requires source <= d && |d| < |p| && d == p[..|d|]
    ensures !Walked(tree, unreadable, source, p)
  {
  }

  /** A configured file contributes exactly itself, named as configured, unless writing it fails. */
  lemma FileItemContributesItself(home: Path, tree: Tree, faults: Faults, item: Path, e: Path)
    requires home + item in tree && tree[home + item] == File
    ensures Contributes(home, tree, faults, item, e) <==> e == item && home + item !in faults.writeFails
  {
  }

  /** Every entry an item contributes is a file of the tree, beneath the item, named relative to home. */
  lemma EntriesAreRelativeFiles(home: Path, tree: Tree, faults: Faults, item: Path, e: Path)
    requires Contributes(home, tree, faults, item, e)
    ensures home + e in tree && tree[home + e] == File
    ensures |item| <= |e| && e[..|item|] == item
    ensures home + e !in faults.writeFails
  {
    var source := home + item;
    if tree[source] == Dir {
      assert (home + e)[..|source|] == source;
      assert e[..|item|] == (home + e)[|home|..|source|];
    }
  }

  /** A configured item that does not exist contributes nothing. */
  lemma MissingItemContributesNothing(home: Path, tree: Tree, faults: Faults, item: Path, e: Path)
    requires home + item !in tree
    ensures !Contributes(home, tree, faults, item, e)
  {
  }

  /** Every readable file beneath a directory item whose write succeeds is in the archive. */
  lemma DirectoryItemComplete(home: Path, tree: Tree, faults: Faults, item: Path, p: Path)
    requires home + item in tree && tree[home + item] == Dir
    requires Walked(tree, faults.unreadable, home + item, p)
    requires p !in faults.writeFails
    ensures |home| <= |p| && p[..|home|] == home
    ensures Contributes(home, tree, faults, item, Relpath(p, home))
  {
    assert p[..|home|] == p[..|home + item|][..|home|];
  }

  /**
   * One iteration of the outer loop, lines 58-82: the entries one configured
   * item adds, each once, in the order the walk happens to produce them.
   */
  method AddItem(home: Path, tree: Tree, faults: Faults, item: Path) returns (added: seq<Path>)
    ensures Distinct(added)
    ensures forall e :: e in added <==> Contributes(home, tree, faults, item, e)
  {
    var source := home + item;
    if source !in tree {
      return [];
    }
    if tree[source] == Dir {
      var files := set p | p in tree.Keys && Walked(tree, faults.unreadable, source, p);
      added := [];
      var rest := files;
      while rest != {}
        invariant rest <= files
        invariant Distinct(added)
        invariant forall e :: e in added <==> home + e in files - rest && home + e !in faults.writeFails
        decreases rest
      {
        var p :| p in rest;
        assert p[..|home|] == p[..|source|][..|home|];
        var arcname := Relpath(p, home);
        if p !in faults.writeFails {
          added := added + [arcname];
        }
        rest := rest - {p};
      }
    } else if source !in faults.writeFails {
      added := [Relpath(source, home)];
    } else {
      added := [];
    }
  }

  /**
   * The loop over `BACKUP_ITEMS`: the archive is the items' contributions
   * one after the other, in the configured order.
   */
  method WriteEntries(home: Path, tree: Tree, faults: Faults, items: seq<Path>)
    returns (archive: seq<Path>, parts: seq<seq<Path>>)
    ensures |parts| == |items| && archive == Flatten(parts)
    ensures forall i :: 0 <= i < |items| ==>
      Distinct(parts[i]) && forall e :: e in parts[i] <==> Contributes(home, tree, faults, items[i], e)
    ensures forall e :: e in archive <==> exists i :: 0 <= i < |items| && Contributes(home, tree, faults, items[i], e)
  {
    archive, parts := [], [];
    var i := 0;
    while i < |items|
      invariant 0 <= i <= |items|
      invariant |parts| == i && archive == Flatten(parts)
      invariant forall j :: 0 <= j < i ==>
        Distinct(parts[j]) && forall e :: e in parts[j] <==> Contributes(home, tree, faults, items[j], e)
    {
      var added := AddItem(home, tree, faults, items[i]);
      FlattenSnoc(parts, added);
      archive, parts := archive + added, parts + [added];
      i := i + 1;
    }
  }

  /** The result of a run and the backup directory it leaves. */
  datatype Run = Run(outcome: Outcome, after: set<string>)

  /**
   * The `except` branch of lines 89-93 on a directory holding `present`:
   * the partial archive is removed if it exists; if that removal raises,
   * the exception escapes `create_backup`.
   */
  function Discard(present: set<string>, zipName: string, removeFails: set<string>): (r: Run)
    ensures r.outcome != Returned(true)
    ensures r.after == present || r.after == present - {zipName}
    ensures r.outcome == Raised <==> zipName in present && zipName in removeFails
    ensures r.outcome == Returned(false) ==> zipName !in r.after
    ensures r.outcome == Raised ==> r.after == present
  {
    if zipName !in present then Run(Returned(false), present)
    else if zipName in removeFails then Run(Raised, present)
    else Run(Returned(false), present - {zipName})
  }

  /** What `create_backup` does to a backup directory holding `before`. */
  ghost function Effect(before: set<string>, maxBackups: nat, now: Timestamp, faults: Faults): (r: Run)
    ensures r.outcome == Returned(true) <==> !faults.makedirsFails && faults.archive == NoArchiveFault
    ensures r.outcome == Returned(false) ==> BackupName(now) !in r.after && r.after == before - {BackupName(now)}
    ensures r.outcome == Returned(true) ==> r.after == AfterCleanup(before + {BackupName(now)}, maxBackups, faults.prune)
    ensures r.outcome == Raised ==> r.after == before || r.after == before + {BackupName(now)}
    ensures faults.makedirsFails ==> r == Run(Raised, before)
  {
    var zipName := BackupName(now);
    if faults.makedirsFails then Run(Raised, before)
    else match faults.archive
      case FailsAtOpen => Discard(before, zipName, faults.prune.removeFails)
      case FailsAtClose => Discard(before + {zipName}, zipName, faults.prune.removeFails)
      case NoArchiveFault => Run(Returned(true), AfterCleanup(before + {zipName}, maxBackups, faults.prune))
  }

  /**
   * `create_backup`. `now` is the time `datetime.now()` would give; `archive`
   * is what was written into the archive file (which is removed again when
   * the archive fails).
   */
  method CreateBackup(dir: OutputDir, cfg: Config, tree: Tree, now: Timestamp, faults: Faults)
    returns (outcome: Outcome, archive: seq<Path>, parts: seq<seq<Path>>)
    modifies dir
    ensures Run(outcome, dir.names) == Effect(old(dir.names), cfg.maxBackups, now, faults)
    ensures faults.makedirsFails || faults.archive == FailsAtOpen ==> archive == [] && parts == []
    ensures !faults.makedirsFails && faults.archive != FailsAtOpen ==>
      |parts| == |cfg.items| && archive == Flatten(parts) &&
      forall i :: 0 <= i < |cfg.items| ==>
        Distinct(parts[i]) && forall e :: e in parts[i] <==> Contributes(cfg.home, tree, faults, cfg.items[i], e)
  {
    archive, parts := [], [];
    if faults.makedirsFails {
      return Raised, archive, parts;
    }
    var zipName := BackupName(now);
    if faults.archive == FailsAtOpen {
      outcome := DiscardPartial(dir, zipName, faults.prune.removeFails);
      return;
    }
    dir.Create(zipName);
    archive, parts := WriteEntries(cfg.home, tree, faults, cfg.items);
    if faults.archive == FailsAtClose {
      outcome := DiscardPartial(dir, zipName, faults.prune.removeFails);
      return;
    }
    dir.CleanupOldBackups(cfg.maxBackups, faults.prune);
    outcome := Returned(true);
  }

  /** Lines 91-93: `if os.path.exists(zip_filename): os.remove(zip_filename)`, then `return False`. */
  method DiscardPartial(dir: OutputDir, zipName: string, removeFails: set<string>) returns (outcome: Outcome)
    modifies dir
    ensures Run(outcome, dir.names) == Discard(old(dir.names), zipName, removeFails)
  {
    if zipName in dir.names {
      var ok := dir.Remove(zipName, removeFails);
      outcome := if ok then Returned(false) else Raised;
    } else {
      outcome := Returned(false);
    }
  }

  /**
   * If every archive already present sorts below the new one (as it does
   * when the clock has moved forward, by NameOrder), a successful run keeps
   * the new archive whatever the pruning pass meets.
   */
  lemma NewestArchiveSurvives(before: set<string>, maxBackups: nat, now: Timestamp, faults: Faults)
    requires 0 < maxBackups
    requires forall x | x in BackupSet(before) :: LexOrder.Below(x, BackupName(now))
    requires Effect(before, maxBackups, now, faults).outcome == Returned(true)
    ensures BackupName(now) in Effect(before, maxBackups, now, faults).after
  {
    var n := BackupName(now);
    var u := before + {n};
    forall x | x in BackupSet(u)
      ensures LexOrder.AtMost(x, n)
    {
      LexOrder.BelowIrreflexive(n);
      LexOrder.BelowAsymmetric(x, n);
    }
    CleanupKeepsGreatest(u, maxBackups, faults.prune, n);
  }

  lemma NamedBeneathItem(home: Path, tree: Tree, faults: Faults, item: Path, e: Path)
    ensures Contributes(home, tree, faults, item, e) ==> item <= e
  {
    if Contributes(home, tree, faults, item, e) {
      EntriesAreRelativeFiles(home, tree, faults, item, e);
    }
  }

  lemma PrefixesComparable(a: Path, b: Path, e: Path)
    ensures a <= e && b <= e ==> a <= b || b <= a
  {
    if a <= e && b <= e {
      if |a| <= |b| {
        assert a == b[..|a|];
      } else {
        assert b == a[..|b|];
      }
    }
  }

  /**
   * With the configured items none of which is a path prefix of another (as
   * with the distinct top-level names of `BACKUP_ITEMS`), no entry is
   * written twice.
   */
  lemma ArchiveDistinct(home: Path, tree: Tree, faults: Faults, items: seq<Path>, parts: seq<seq<Path>>)
    requires |parts| == |items|
    requires forall i :: 0 <= i < |items| ==>
      Distinct(parts[i]) && forall e :: e in parts[i] <==> Contributes(home, tree, faults, items[i], e)
    requires forall i, j :: 0 <= i < |items| && 0 <= j < |items| && i != j ==> !(items[i] <= items[j])
    ensures Distinct(Flatten(parts))
  {
    forall i, j, e | 0 <= i < j < |parts| && e in parts[i]
      ensures e !in parts[j]
    {
      NamedBeneathItem(home, tree, faults, items[i], e);
      NamedBeneathItem(home, tree, faults, items[j], e);
      PrefixesComparable(items[i], items[j], e);
    }
    FlattenDistinct(parts);
  }

  /** A run that succeeds, with a pruning pass that meets no failure, leaves `Prune` of the directory plus its archive. */
  lemma SuccessfulRunPrunes(before: set<string>, maxBackups: nat, now: Timestamp, faults: Faults)
    requires Effect(before, maxBackups, now, faults).outcome == Returned(true)
    requires faults.prune == PruneFaults(false, {})
    ensures Effect(before, maxBackups, now, faults).after == Prune(before + {BackupName(now)}, maxBackups)
  {
  }

  /** The directory after `create_backup` runs at the given times, each one meeting `faults`. */
  ghost function AfterBackups(initial: set<string>, times: seq<Timestamp>, maxBackups: nat, faults: Faults): set<string>
  {
    if times == [] then initial
    else
      var prev := AfterBackups(initial, times[..|times| - 1], maxBackups, faults);
      Effect(prev, maxBackups, times[|times| - 1], faults).after
  }

  /**
   * Successive `create_backup` runs that succeed, with pruning passes that
   * meet no failure, leave the directory `AfterRuns` describes; so
   * RunsKeepMostRecent is a statement about them.
   */
  lemma {:induction false} BackupsAreRuns(initial: set<string>, times: seq<Timestamp>, maxBackups: nat, faults: Faults)
    requires !faults.makedirsFails && faults.archive == NoArchiveFault
    requires faults.prune == PruneFaults(false, {})
    ensures AfterBackups(initial, times, maxBackups, faults) == AfterRuns(initial, times, maxBackups)
  {
    if times != [] {
      var prev := times[..|times| - 1];
      BackupsAreRuns(initial, prev, maxBackups, faults);
      SuccessfulRunPrunes(AfterBackups(initial, prev, maxBackups, faults), maxBackups, times[|times| - 1], faults);
    }
  }
}
