/**
  Backup naming and retention of the deploy webhook (`createBackup`).

  A backup is written to `<dir>/backup_<Y-m-d_H-i-s>.tar.gz`.  After a
  successful `tar`, the directory listing (`glob`) is sorted in
  descending string order (`rsort`) and every name after the fifth is
  deleted.  The listing itself comes from the file system; the model
  takes the names already present as input and adds the new archive
  unless a file of that name already exists (two runs in the same
  second write the same name and `tar` overwrites it).
 */
module Backups {
  import opened LexOrder

  const KeepCount: nat := 5

  function BackupPath(dir: string, stamp: string): string
  {
    dir + "/backup_" + stamp + ".tar.gz"
  }

  /** The listing `glob` sees once the new archive exists. */
  function AddFile(existing: seq<string>, path: string): (listing: seq<string>)
    ensures path in listing
    ensures forall x :: x in listing <==> x in existing || x == path
  {
    if path in existing then existing else existing + [path]
  }

  datatype Retention = Retention(kept: seq<string>, deleted: seq<string>)

  /** `rsort($backups)` then `array_slice($backups, 5)` are deleted. */
  function Retain(listing: seq<string>): (r: Retention)
    ensures |r.kept| == if |listing| < KeepCount then |listing| else KeepCount
    ensures multiset(r.kept) + multiset(r.deleted) == multiset(listing)
    ensures SortedDesc(r.kept)
    ensures forall k, d :: k in r.kept && d in r.deleted ==> LessEq(d, k)
  {
    var sorted := SortDesc(listing);
    var n := if |sorted| < KeepCount then |sorted| else KeepCount;
    assert sorted == sorted[..n] + sorted[n..];
    assert forall k, d :: k in sorted[..n] && d in sorted[n..] ==> LessEq(d, k) by {
      forall k, d | k in sorted[..n] && d in sorted[n..]
        ensures LessEq(d, k)
      {
        var i :| 0 <= i < n && sorted[..n][i] == k;
        var j :| 0 <= j < |sorted| - n && sorted[n..][j] == d;
        assert sorted[i] == k && sorted[n + j] == d;
      }
    }
    Retention(sorted[..n], sorted[n..])
  }

  /** A name above every other name of the listing is never deleted. */
  lemma NewestKept(listing: seq<string>, newest: string)
    requires newest in listing
    requires forall y :: y in listing && y != newest ==> Less(y, newest)
    ensures newest in Retain(listing).kept
  {
    var r := Retain(listing);
    assert newest in multiset(r.kept) + multiset(r.deleted);
    if newest !in r.kept {
      assert newest in r.deleted;
      assert |r.kept| == KeepCount;
      var k := r.kept[0];
      assert k in multiset(listing);
      assert LessEq(newest, k);
      if k != newest {
        LessAsymmetric(k, newest);
      }
    }
  }

  /** Names of equal-length stamps in one directory compare as the stamps
      do; for zero-padded `Y-m-d_H-i-s` stamps that is time order. */
  lemma BackupPathOrder(dir: string, s1: string, s2: string)
    requires |s1| == |s2| && s1 != s2
    ensures Less(BackupPath(dir, s1), BackupPath(dir, s2)) <==> Less(s1, s2)
  {
    var p := dir + "/backup_";
    assert BackupPath(dir, s1) == p + (s1 + ".tar.gz");
    assert BackupPath(dir, s2) == p + (s2 + ".tar.gz");
    LessPrefix(p, s1 + ".tar.gz", s2 + ".tar.gz");
    LessEqualLength(s1, s2, ".tar.gz", ".tar.gz");
  }

  /** The backup directory after one successful backup with archive `path`. */
  function AfterBackup(dir: seq<string>, path: string): seq<string>
  {
    Retain(AddFile(dir, path)).kept
  }

  /** The backup directory after a series of successful backups. */
  function AfterBackups(dir: seq<string>, paths: seq<string>): seq<string>
    decreases |paths|
  {
    if |paths| == 0 then dir else AfterBackups(AfterBackup(dir, paths[0]), paths[1..])
  }

  predicate Distinct(s: seq<string>)
  {
    forall i, j :: 0 <= i < j < |s| ==> s[i] != s[j]
  }

  function Min(a: nat, b: nat): nat
  {
    if a < b then a else b
  }

  lemma DistinctTail(s: seq<string>)
    requires |s| > 0 && Distinct(s)
    ensures Distinct(s[1..]) && s[0] !in s[1..]
  {
    forall i, j | 0 <= i < j < |s[1..]|
      ensures s[1..][i] != s[1..][j]
    {
      assert s[1..][i] == s[i + 1] && s[1..][j] == s[j + 1];
    }
  }

  /** One backup adds a fresh name and keeps only names already present. */
  lemma AfterBackupFresh(dir: seq<string>, paths: seq<string>)
    requires |paths| > 0 && Distinct(paths)
    requires forall x :: x in dir ==> x !in paths
    ensures |AddFile(dir, paths[0])| == |dir| + 1
    ensures forall x :: x in AfterBackup(dir, paths[0]) ==> x !in paths[1..]
  {
    DistinctTail(paths);
    var listing := AddFile(dir, paths[0]);
    assert listing == dir + [paths[0]];
    var r := Retain(listing);
    forall x | x in r.kept
      ensures x !in paths[1..]
    {
      assert x in multiset(listing);
      assert x in listing;
    }
  }

  /** Starting from at most five archives, each new distinctly named archive
      grows the directory by one until it holds five. */
  lemma {:induction false} AfterBackupsCount(dir: seq<string>, paths: seq<string>)
    requires |dir| <= KeepCount && Distinct(paths)
    requires forall x :: x in dir ==> x !in paths
    ensures |AfterBackups(dir, paths)| == Min(|dir| + |paths|, KeepCount)
    decreases |paths|
  {
    if |paths| > 0 {
      AfterBackupFresh(dir, paths);
      DistinctTail(paths);
      AfterBackupsCount(AfterBackup(dir, paths[0]), paths[1..]);
    }
  }

  /** After N successful deployments with distinct archive names into an
      empty directory, min(N, 5) archives remain. */
  lemma RetentionCount(paths: seq<string>)
    requires Distinct(paths)
    ensures |AfterBackups([], paths)| == Min(|paths|, KeepCount)
  {
    AfterBackupsCount([], paths);
  }
}
