/**
 * The retention pruner, `cleanup_old_backups` (backup_config.py, lines
 * 97-109). It lists the backup directory, keeps the names that look like
 * archives, sorts them and, when there are more than the retention count,
 * removes every one except the last so many. A removal that fails ends the
 * pass; the failure is absorbed.
 *
 * The directory is a set of names. `SelectOld` is the pure choice of what to
 * delete, made on a listing in whatever order `os.listdir` returns it;
 * `Doomed` is the same choice stated on the set, and the two agree whatever
 * the listing order (ListingOrderIrrelevant). `OutputDir` is the directory as
 * state, and its `CleanupOldBackups` is the deletion loop.
 */
module Retention {
  import opened Sequences
  import opened LexOrder
  import opened Naming

  /** The list comprehension of line 100-101: the names that look like archives. */
  function Filter(listing: seq<string>): (r: seq<string>)
    ensures forall x :: multiset(r)[x] == if IsBackupName(x) then multiset(listing)[x] else 0
  {
    if listing == [] then []
    else
      assert listing == [listing[0]] + listing[1..];
      (if IsBackupName(listing[0]) then [listing[0]] else []) + Filter(listing[1..])
  }

  /** Python's `s[:-k]` for `k >= 0`; `s[:-0]` is `s[:0]`, the empty list. */
  function DropLast(s: seq<string>, k: nat): (r: seq<string>)
    ensures r <= s
    ensures 0 < k ==> |r| == if |s| <= k then 0 else |s| - k
    ensures k == 0 ==> r == []
  {
    if k == 0 || |s| <= k then [] else s[..|s| - k]
  }

  /**
   * The names `cleanup_old_backups` removes, in the order it removes them:
   * `sorted(...)[:-MAX_BACKUPS]` when there are more than `MAX_BACKUPS`.
   */
  function SelectOld(listing: seq<string>, maxBackups: nat): (doomed: seq<string>)
    ensures forall x | x in doomed :: x in listing && IsBackupName(x)
    ensures multiset(doomed) <= multiset(listing)
  {
    var backups := Sort(Filter(listing));
    var doomed := if |backups| > maxBackups then DropLast(backups, maxBackups) else [];
    PrefixMultiset(backups, doomed);
    FilterFacts(listing);
    forall x | x in doomed
      ensures x in listing && IsBackupName(x)
    {
      assert x in multiset(doomed);
      assert x in multiset(Filter(listing));
    }
    doomed
  }

  lemma PrefixMultiset(s: seq<string>, d: seq<string>)
    requires d <= s
    ensures multiset(d) <= multiset(s)
  {
    assert s == d + s[|d|..];
  }

  lemma FilterFacts(listing: seq<string>)
    ensures multiset(Filter(listing)) <= multiset(listing)
    ensures forall x | x in multiset(Filter(listing)) :: IsBackupName(x)
  {
  }

  /** The names in a directory that look like archives. */
  ghost function BackupSet(names: set<string>): set<string>
  {
    set x | x in names && IsBackupName(x)
  }

  /** One listing of a directory; any other lists the same names in another order. */
  ghost function Listing(names: set<string>): (listing: seq<string>)
    ensures multiset(listing) == multiset(names)
    decreases names
  {
    if names == {} then []
    else
      var x :| x in names;
      assert names == (names - {x}) + {x};
      [x] + Listing(names - {x})
  }

  /** What one pass without failures deletes from a directory holding `names`. */
  ghost function Doomed(names: set<string>, maxBackups: nat): seq<string>
  {
    SelectOld(Listing(names), maxBackups)
  }

  /** The directory after one pass without failures. */
  ghost function Prune(names: set<string>, maxBackups: nat): (kept: set<string>)
    ensures kept <= names
    ensures forall x | x in names && !IsBackupName(x) :: x in kept
  {
    names - Elems(Doomed(names, maxBackups))
  }

  /** The archives of a directory in sorted order. */
  ghost function SortedBackups(names: set<string>): (s: seq<string>)
    ensures Increasing(s)
    ensures multiset(s) == multiset(BackupSet(names))
    ensures forall x :: x in s <==> x in BackupSet(names)
    ensures |s| == |BackupSet(names)|
  {
    var s := Sort(Filter(Listing(names)));
    assert multiset(s) == multiset(BackupSet(names)) by {
      assert forall x :: multiset(s)[x] == multiset(BackupSet(names))[x];
    }
    assert forall i, j :: 0 <= i < j < |s| ==> s[i] != s[j] by {
      SingleOccurrencesDistinct(s);
    }
    SortedDistinctIncreasing(s);
    assert forall x :: x in s <==> x in multiset(s);
    s
  }

  /**
   * `os.listdir` may return the names in any order; what the pass deletes
   * does not depend on it.
   */
  lemma ListingOrderIrrelevant(listing: seq<string>, names: set<string>, maxBackups: nat)
    requires multiset(listing) == multiset(names)
    ensures SelectOld(listing, maxBackups) == Doomed(names, maxBackups)
  {
    var other := Listing(names);
    assert multiset(Filter(listing)) == multiset(Filter(other)) by {
      assert forall x :: multiset(Filter(listing))[x] == multiset(Filter(other))[x];
    }
    SortDeterminedByMultiset(Filter(listing), Filter(other));
  }

  /** The last `maxBackups` of `s`, or all of `s` when `maxBackups` is 0 or at least |s|. */
  function Keep(s: seq<string>, maxBackups: nat): seq<string>
  {
    if maxBackups == 0 || |s| <= maxBackups then s else s[|s| - maxBackups..]
  }

  lemma DropLastThenKeep(s: seq<string>, maxBackups: nat)
    ensures s == DropLast(s, maxBackups) + Keep(s, maxBackups)
    ensures |DropLast(s, maxBackups)| == |s| - |Keep(s, maxBackups)|
  {
    if !(maxBackups == 0 || |s| <= maxBackups) {
      assert s == s[..|s| - maxBackups] + s[|s| - maxBackups..];
    }
  }

  /** An increasing list of exactly the members of a set holds each of them once. */
  lemma IncreasingListOfSet(s: seq<string>, elems: set<string>)
    requires Increasing(s)
    requires forall x :: x in s <==> x in elems
    ensures multiset(s) == multiset(elems)
    ensures |s| == |elems|
  {
    assert forall i, j :: 0 <= i < j < |s| ==> s[i] != s[j] by {
      forall i, j | 0 <= i < j < |s| ensures s[i] != s[j] {
        BelowIrreflexive(s[i]);
      }
    }
    DistinctCardinality(s);
    assert Elems(s) == elems;
  }

  /**
   * Pruning in terms of any sorted list of the directory's archives: it
   * deletes the first |s| - maxBackups of them ...
   */
  lemma DoomedIsDropLast(names: set<string>, s: seq<string>, maxBackups: nat)
    requires Increasing(s)
    requires forall x :: x in s <==> x in BackupSet(names)
    ensures Doomed(names, maxBackups) == DropLast(s, maxBackups)
  {
    var t := SortedBackups(names);
    IncreasingListOfSet(s, BackupSet(names));
    IncreasingIsSorted(s);
    IncreasingIsSorted(t);
    SortedUnique(s, t);
  }

  /**
   * Deleting the first q names of a sorted list of the directory's archives
   * leaves exactly the others, all above the deleted ones.
   */
  lemma RemovePrefix(names: set<string>, s: seq<string>, q: nat)
    requires Increasing(s)
    requires forall x :: x in s <==> x in BackupSet(names)
    requires q <= |s|
    ensures BackupSet(names - Elems(s[..q])) == Elems(s[q..])
    ensures forall x, y :: x in s[..q] && y in s[q..] ==> Below(x, y)
  {
    var d, k := s[..q], s[q..];
    assert s == d + k;
    assert forall i :: 0 <= i < |d| ==> d[i] == s[i];
    assert forall j :: 0 <= j < |k| ==> k[j] == s[q + j];
    forall x, y | x in d && y in k
      ensures Below(x, y)
    {
      var i :| 0 <= i < |d| && d[i] == x;
      var j :| 0 <= j < |k| && k[j] == y;
    }
    forall x | x in k
      ensures x !in d
    {
      BelowIrreflexive(x);
    }
    var after := names - Elems(d);
    forall x | x in BackupSet(after)
      ensures x in k
    {
      assert x in BackupSet(names);
    }
    forall x | x in k
      ensures x in BackupSet(after)
    {
      assert x in BackupSet(names);
    }
  }

  /** ... and leaves the rest. */
  lemma PruneKeepsLast(names: set<string>, s: seq<string>, maxBackups: nat)
    requires Increasing(s)
    requires forall x :: x in s <==> x in BackupSet(names)
    ensures BackupSet(Prune(names, maxBackups)) == Elems(Keep(s, maxBackups))
  {
    DoomedIsDropLast(names, s, maxBackups);
    DropLastThenKeep(s, maxBackups);
    var q := |DropLast(s, maxBackups)|;
    assert DropLast(s, maxBackups) == s[..q] && Keep(s, maxBackups) == s[q..];
    RemovePrefix(names, s, q);
  }

  /** With at most `maxBackups` archives present, nothing is deleted. */
  lemma PruneFew(names: set<string>, maxBackups: nat)
    requires |BackupSet(names)| <= maxBackups
    ensures Doomed(names, maxBackups) == []
    ensures Prune(names, maxBackups) == names
  {
    DoomedIsDropLast(names, SortedBackups(names), maxBackups);
  }

  /** Both parts of an increasing list are increasing, and the first lies wholly below the second. */
  lemma IncreasingSplit(s: seq<string>, maxBackups: nat)
    requires Increasing(s)
    ensures Increasing(DropLast(s, maxBackups)) && Increasing(Keep(s, maxBackups))
    ensures forall x, y :: x in DropLast(s, maxBackups) && y in Keep(s, maxBackups) ==> Below(x, y)
  {
    var d, k := DropLast(s, maxBackups), Keep(s, maxBackups);
    DropLastThenKeep(s, maxBackups);
    assert forall i :: 0 <= i < |d| ==> d[i] == s[i];
    assert forall j :: 0 <= j < |k| ==> k[j] == s[|d| + j];
    forall x, y | x in d && y in k
      ensures Below(x, y)
    {
      var i :| 0 <= i < |d| && d[i] == x;
      var j :| 0 <= j < |k| && k[j] == y;
    }
  }

  /**
   * With n > maxBackups > 0 archives present, exactly the n - maxBackups
   * smallest are deleted: each deleted name sorts below every archive that
   * stays, and maxBackups archives stay.
   */
  lemma PruneOldest(names: set<string>, maxBackups: nat)
    requires 0 < maxBackups < |BackupSet(names)|
    ensures |Doomed(names, maxBackups)| == |BackupSet(names)| - maxBackups
    ensures Increasing(Doomed(names, maxBackups))
    ensures forall d, k :: d in Doomed(names, maxBackups) && k in BackupSet(Prune(names, maxBackups)) ==> Below(d, k)
    ensures |BackupSet(Prune(names, maxBackups))| == maxBackups
  {
    var s := SortedBackups(names);
    DoomedIsDropLast(names, s, maxBackups);
    PruneKeepsLast(names, s, maxBackups);
    DropLastThenKeep(s, maxBackups);
    IncreasingSplit(s, maxBackups);
    var k := Keep(s, maxBackups);
    IncreasingListOfSet(k, Elems(k));
  }

  /** With retention count c > 0, a pass leaves min(n, c) archives and every other file. */
  lemma PruneCount(names: set<string>, maxBackups: nat)
    requires 0 < maxBackups
    ensures |BackupSet(Prune(names, maxBackups))| ==
      if |BackupSet(names)| <= maxBackups then |BackupSet(names)| else maxBackups
    ensures Prune(names, maxBackups) - BackupSet(names) == names - BackupSet(names)
  {
    if |BackupSet(names)| <= maxBackups {
      PruneFew(names, maxBackups);
    } else {
      PruneOldest(names, maxBackups);
    }
  }

  /** A second pass right after the first deletes nothing. */
  lemma PruneIdempotent(names: set<string>, maxBackups: nat)
    ensures Doomed(Prune(names, maxBackups), maxBackups) == []
    ensures Prune(Prune(names, maxBackups), maxBackups) == Prune(names, maxBackups)
  {
    if maxBackups == 0 || |BackupSet(names)| <= maxBackups {
      DoomedIsDropLast(names, SortedBackups(names), maxBackups);
      assert Prune(names, maxBackups) == names;
      if maxBackups > 0 {
        PruneFew(names, maxBackups);
      }
    } else {
      PruneOldest(names, maxBackups);
      PruneFew(Prune(names, maxBackups), maxBackups);
    }
  }

  /**
   * With names made by BackupName, every archive deleted is older than every
   * archive kept: "keep the last N sorted" keeps the N most recent.
   */
  lemma PruneKeepsMostRecent(names: set<string>, maxBackups: nat, earlier: Timestamp, kept: Timestamp)
    requires BackupName(earlier) in Doomed(names, maxBackups)
    requires BackupName(kept) in Prune(names, maxBackups)
    ensures Before(earlier, kept)
  {
    var s := SortedBackups(names);
    DoomedIsDropLast(names, s, maxBackups);
    PruneKeepsLast(names, s, maxBackups);
    if maxBackups == 0 || |BackupSet(names)| <= maxBackups {
      assert false;
    } else {
      PruneOldest(names, maxBackups);
      assert BackupName(kept) in BackupSet(Prune(names, maxBackups));
      NameOrder(earlier, kept);
    }
  }

  /** The stamps are strictly increasing in time: the clock moved forward between runs. */
  predicate Chronological(times: seq<Timestamp>)
  {
    forall i, j :: 0 <= i < j < |times| ==> Before(times[i], times[j])
  }

  /** The archive names that backups at the given times create. */
  function NamesOf(times: seq<Timestamp>): (r: seq<string>)
    ensures |r| == |times|
    ensures forall i :: 0 <= i < |times| ==> r[i] == BackupName(times[i])
  {
    if times == [] then []
    else NamesOf(times[..|times| - 1]) + [BackupName(times[|times| - 1])]
  }

  lemma ChronologicalNamesIncreasing(times: seq<Timestamp>)
    requires Chronological(times)
    ensures Increasing(NamesOf(times))
  {
    var r := NamesOf(times);
    forall i, j | 0 <= i < j < |r|
      ensures Below(r[i], r[j])
    {
      NameOrder(times[i], times[j]);
    }
  }

  lemma KeepSnoc(s: seq<string>, x: string, maxBackups: nat)
    requires 0 < maxBackups
    ensures Keep(Keep(s, maxBackups) + [x], maxBackups) == Keep(s + [x], maxBackups)
    ensures Keep(s, maxBackups) + [x] == (s + [x])[|s| - |Keep(s, maxBackups)|..]
  {
  }

  /**
   * The directory after successful backups at the given times, one after the
   * other, each followed by a pruning pass that meets no failure.
   */
  ghost function AfterRuns(initial: set<string>, times: seq<Timestamp>, maxBackups: nat): set<string>
  {
    if times == [] then initial
    else
      var prev := AfterRuns(initial, times[..|times| - 1], maxBackups);
      Prune(prev + {BackupName(times[|times| - 1])}, maxBackups)
  }

  /** One more archive, newer than all before it, then one pruning pass. */
  lemma RunStep(t: set<string>, n: string, older: seq<string>, maxBackups: nat)
    requires 0 < maxBackups
    requires IsBackupName(n)
    requires Increasing(older + [n])
    requires BackupSet(t) == Elems(Keep(older, maxBackups))
    ensures BackupSet(Prune(t + {n}, maxBackups)) == Elems(Keep(older + [n], maxBackups))
    ensures Prune(t + {n}, maxBackups) - BackupSet(Prune(t + {n}, maxBackups)) == t - BackupSet(t)
  {
    var u := t + {n};
    var l := Keep(older, maxBackups) + [n];
    KeepSnoc(older, n, maxBackups);
    assert Increasing(l) by {
      assert l == (older + [n])[|older| - |Keep(older, maxBackups)|..];
    }
    assert BackupSet(u) == BackupSet(t) + {n};
    assert forall x :: x in l <==> x in BackupSet(u);
    PruneKeepsLast(u, l, maxBackups);
  }

  /** The last min(|s|, c) elements of an increasing list are that many different names. */
  lemma KeepCount(s: seq<string>, maxBackups: nat)
    requires 0 < maxBackups
    requires Increasing(s)
    ensures |Elems(Keep(s, maxBackups))| == if |s| <= maxBackups then |s| else maxBackups
  {
    IncreasingSplit(s, maxBackups);
    IncreasingListOfSet(Keep(s, maxBackups), Elems(Keep(s, maxBackups)));
  }

  /**
   * Starting from a directory with no archives, after k successful runs at
   * increasing times the directory holds exactly the archives of the last
   * min(k, maxBackups) runs, and every other file it held at the start.
   */
  lemma {:induction false} RunsKeepMostRecent(initial: set<string>, times: seq<Timestamp>, maxBackups: nat)
    requires BackupSet(initial) == {}
    requires 0 < maxBackups
    requires Chronological(times)
    ensures BackupSet(AfterRuns(initial, times, maxBackups)) == Elems(Keep(NamesOf(times), maxBackups))
    ensures |BackupSet(AfterRuns(initial, times, maxBackups))| ==
      if |times| <= maxBackups then |times| else maxBackups
    ensures AfterRuns(initial, times, maxBackups) - BackupSet(AfterRuns(initial, times, maxBackups)) == initial
  {
    ChronologicalNamesIncreasing(times);
    KeepCount(NamesOf(times), maxBackups);
    if times == [] {
      assert Elems(Keep(NamesOf(times), maxBackups)) == {};
    } else {
      var prev := times[..|times| - 1];
      assert Chronological(prev);
      RunsKeepMostRecent(initial, prev, maxBackups);
      var n := BackupName(times[|times| - 1]);
      assert NamesOf(times) == NamesOf(prev) + [n];
      RunStep(AfterRuns(initial, prev, maxBackups), n, NamesOf(prev), maxBackups);
    }
  }

  /** A set of one element that holds `a` is `{a}`. */
  lemma Singleton(kept: set<string>, a: string)
    requires a in kept && |kept| == 1
    ensures kept == {a}
  {
    assert |kept - {a}| == 0;
  }

  /** Of two archive names, a pass with a retention count of 1 keeps the greater. */
  lemma KeepsGreaterOfTwo(a: string, b: string)
    requires IsBackupName(a) && IsBackupName(b)
    requires Below(b, a)
    ensures a in Prune({a, b}, 1)
  {
    var names := {a, b};
    assert BackupSet(names) == names;
    BelowAsymmetric(b, a);
    BelowIrreflexive(a);
    CleanupKeepsGreatest(names, 1, PruneFaults(false, {}), a);
  }

  /** Of two archive names, a pass with a retention count of 1 keeps only the greater. */
  lemma KeepOneOfTwo(a: string, b: string)
    requires IsBackupName(a) && IsBackupName(b)
    requires Below(b, a)
    ensures Prune({a, b}, 1) == {a}
  {
    KeepsGreaterOfTwo(a, b);
    PruneCount({a, b}, 1);
    var kept := Prune({a, b}, 1);
    assert BackupSet({a, b}) == {a, b};
    assert BackupSet(kept) == kept;
    Singleton(kept, a);
  }

  /**
   * A clock set back between two runs (the end of daylight saving time, a
   * manual correction) gives the later run's archive the smaller name, so
   * with a retention count of 1 the second pass deletes the newer archive and
   * keeps the older one. The left side is `AfterRuns({}, [first, second], 1)`
   * with its two steps written out.
   */
  lemma ClockSetBackDeletesNewer(first: Timestamp, second: Timestamp)
    requires Before(second, first)
    ensures Prune(Prune({BackupName(first)}, 1) + {BackupName(second)}, 1) == {BackupName(first)}
  {
    var a, b := BackupName(first), BackupName(second);
    assert BackupSet({a}) == {a};
    PruneFew({a}, 1);
    assert {a} + {b} == {a, b};
    NameOrder(second, first);
    KeepOneOfTwo(a, b);
  }

  /**
   * The failures a pruning pass can meet: `os.listdir` raises, or `os.remove`
   * of a name raises. `removeFails` is the set of names whose `os.remove`
   * raises anywhere in the run, so the archiver's removal of a broken archive
   * (backup_config.py, line 92) consults it too.
   */
  datatype PruneFaults = PruneFaults(listFails: bool, removeFails: set<string>)

  /** The names deleted before the first removal that fails; the loop stops there. */
  function RemovedBeforeFailure(doomed: seq<string>, fails: set<string>): (removed: seq<string>)
    ensures removed <= doomed
    ensures forall x | x in removed :: x !in fails
    ensures |removed| < |doomed| ==> doomed[|removed|] in fails
  {
    if doomed == [] || doomed[0] in fails then []
    else [doomed[0]] + RemovedBeforeFailure(doomed[1..], fails)
  }

  /** The three ensures of RemovedBeforeFailure determine its result. */
  lemma RemovedBeforeFailureUnique(doomed: seq<string>, fails: set<string>, p: seq<string>)
    requires p <= doomed
    requires forall x | x in p :: x !in fails
    requires |p| < |doomed| ==> doomed[|p|] in fails
    ensures p == RemovedBeforeFailure(doomed, fails)
  {
  }

  lemma {:induction false} RemovedAllWithoutFailures(doomed: seq<string>, fails: set<string>)
    ensures fails == {} ==> RemovedBeforeFailure(doomed, fails) == doomed
  {
    if doomed != [] {
      RemovedAllWithoutFailures(doomed[1..], fails);
    }
  }

  /** The directory after `cleanup_old_backups` meets the given failures. */
  ghost function AfterCleanup(names: set<string>, maxBackups: nat, faults: PruneFaults): (after: set<string>)
    ensures after <= names
    ensures forall x | x in names && !IsBackupName(x) :: x in after
    ensures faults.listFails ==> after == names
    ensures faults.removeFails == {} && !faults.listFails ==> after == Prune(names, maxBackups)
  {
    if faults.listFails then names
    else
      RemovedAllWithoutFailures(Doomed(names, maxBackups), faults.removeFails);
      names - Elems(RemovedBeforeFailure(Doomed(names, maxBackups), faults.removeFails))
  }

  /**
   * Even a pass cut short by a failure deletes oldest first: every name it
   * deleted sorts below every archive that is left.
   */
  lemma CleanupOldestFirst(names: set<string>, maxBackups: nat, faults: PruneFaults)
    ensures forall r, k ::
      (r in names - AfterCleanup(names, maxBackups, faults) &&
       k in BackupSet(AfterCleanup(names, maxBackups, faults))) ==> Below(r, k)
  {
    if !faults.listFails {
      var s := SortedBackups(names);
      DoomedIsDropLast(names, s, maxBackups);
      var p := RemovedBeforeFailure(Doomed(names, maxBackups), faults.removeFails);
      PrefixOfDropLast(s, maxBackups, p);
      RemovePrefix(names, s, |p|);
    }
  }

  /** What is cut from the front of `s[:-k]` is cut from the front of `s`, and misses the last element when `k > 0`. */
  lemma PrefixOfDropLast(s: seq<string>, maxBackups: nat, p: seq<string>)
    requires p <= DropLast(s, maxBackups)
    ensures |p| <= |s| && p == s[..|p|]
    ensures 0 < maxBackups && s != [] ==> |p| < |s|
  {
  }

  /** A prefix that stops short of the last element of an increasing sequence holds nothing at or above that element. */
  lemma ShortPrefixBelowLast(s: seq<string>, q: nat, n: string)
    requires Increasing(s)
    requires q < |s|
    requires AtMost(s[|s| - 1], n)
    ensures n !in Elems(s[..q])
  {
    BelowIrreflexive(n);
    forall i | 0 <= i < q
      ensures s[i] != n
    {
      BelowAtMostTransitive(s[i], s[|s| - 1], n);
    }
  }

  /** No pass, however it ends, deletes the greatest archive name when at least one is kept. */
  lemma CleanupKeepsGreatest(names: set<string>, maxBackups: nat, faults: PruneFaults, n: string)
    requires 0 < maxBackups
    requires n in BackupSet(names)
    requires forall x | x in BackupSet(names) :: AtMost(x, n)
    ensures n in AfterCleanup(names, maxBackups, faults)
  {
    if !faults.listFails {
      var s := SortedBackups(names);
      DoomedIsDropLast(names, s, maxBackups);
      var p := RemovedBeforeFailure(Doomed(names, maxBackups), faults.removeFails);
      PrefixOfDropLast(s, maxBackups, p);
      ShortPrefixBelowLast(s, |p|, n);
    }
  }

  lemma PrefixSetStep(s: seq<string>, i: nat)
    requires i < |s|
    ensures Elems(s[..i + 1]) == Elems(s[..i]) + {s[i]}
  {
    assert s[..i + 1] == s[..i] + [s[i]];
  }

  /** The backup directory, whose contents the pruner and the archiver change. */
  class OutputDir {
    var names: set<string>

    constructor (initial: set<string>)
      ensures names == initial
    {
      names := initial;
    }

    /** `os.listdir`: every name once, in an order the model leaves open. */
    method ListDir() returns (listing: seq<string>)
      ensures multiset(listing) == multiset(names)
    {
      listing := [];
      var rest := names;
      while rest != {}
        invariant rest <= names
        invariant multiset(listing) + multiset(rest) == multiset(names)
        decreases rest
      {
        var x :| x in rest;
        assert rest == (rest - {x}) + {x};
        listing := listing + [x];
        rest := rest - {x};
      }
    }

    /** The archive file is created (`zipfile.ZipFile(name, 'w')`). */
    method Create(name: string)
      modifies this
      ensures names == old(names) + {name}
    {
      names := names + {name};
    }

    /** `os.remove`: raises when the file is missing or the oracle says so. */
    method Remove(name: string, fails: set<string>) returns (ok: bool)
      modifies this
      ensures ok <==> name in old(names) && name !in fails
      ensures names == if ok then old(names) - {name} else old(names)
    {
      ok := name in names && name !in fails;
      if ok {
        names := names - {name};
      }
    }

    /**
     * The `for` loop of lines 104-107: removes the names in order and stops
     * at the first removal that raises.
     */
    method RemoveInOrder(doomed: seq<string>, fails: set<string>)
      requires Distinct(doomed)
      requires Elems(doomed) <= names
      modifies this
      ensures names == old(names) - Elems(RemovedBeforeFailure(doomed, fails))
    {
      var i := 0;
      assert Elems(doomed[..0]) == {};
      while i < |doomed|
        invariant 0 <= i <= |doomed|
        invariant forall k | 0 <= k < i :: doomed[k] !in fails
        invariant names == old(names) - Elems(doomed[..i])
      {
        assert doomed[i] in old(names);
        assert doomed[i] !in doomed[..i];
        var ok := Remove(doomed[i], fails);
        if !ok {
          break;
        }
        PrefixSetStep(doomed, i);
        i := i + 1;
      }
      RemovedBeforeFailureUnique(doomed, fails, doomed[..i]);
    }

    /** `cleanup_old_backups`: any failure ends the pass and is absorbed. */
    method CleanupOldBackups(maxBackups: nat, faults: PruneFaults)
      modifies this
      ensures names == AfterCleanup(old(names), maxBackups, faults)
    {
      if faults.listFails {
        return;
      }
      var listing := ListDir();
      var doomed := SelectOld(listing, maxBackups);
      ListingOrderIrrelevant(listing, names, maxBackups);
      assert forall x :: multiset(doomed)[x] <= 1 by {
        assert forall x :: multiset(doomed)[x] <= multiset(listing)[x];
      }
      SingleOccurrencesDistinct(doomed);
      forall x | x in doomed
        ensures x in names
      {
        assert x in multiset(listing);
      }
      RemoveInOrder(doomed, faults.removeFails);
    }
  }
}
