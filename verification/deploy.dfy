/**
  `deployWebsite` of the deploy webhook: check that git is installed and
  that the site is a git working copy, take a backup, run the three git
  commands, restore the backup if one of them fails, and finally check
  that `index.html` and the `css` directory are present.

  Shell commands are not run: the server is a `Host` that answers, for
  each command, whether it exits with status 0, and reports the file-system
  facts the script tests.  The result records the commands in the order
  they are issued, the backup clean-up, and the boolean the function returns.
 */
module Deploy {
  import opened Common
  import opened LexOrder
  import opened Backups

  /** The shell commands `deployWebsite` issues through `executeCommand`. */
  datatype Command =
    | WhichGit
    | TarCreate(archive: string)
    | GitFetch
    | GitReset
    | GitClean
    | TarExtract(archive: string)

  predicate IsGit(c: Command)
  {
    c.GitFetch? || c.GitReset? || c.GitClean?
  }

  /** `git fetch origin main`, `git reset --hard origin/main`, `git clean -fd`. */
  const GitCommands: seq<Command> := [GitFetch, GitReset, GitClean]

  datatype Host = Host(
    succeeds: Command -> bool,       // exit status 0
    hasGitDir: bool,                 // `is_dir(__DIR__ . '/.git')`
    backupDir: string,               // `__DIR__ . '/backups'`
    stamp: string,                   // `date('Y-m-d_H-i-s')`
    existingBackups: seq<string>,    // archives already in the backup directory
    hasIndex: bool,                  // `index.html` after the git commands
    hasCssDir: bool)                 // `css/` after the git commands

  datatype Outcome = Outcome(
    trace: seq<Command>,
    backups: Option<Retention>,      // the clean-up, when the archive was written
    success: bool)

  /** The archive `createBackup` writes on this host. */
  function Archive(h: Host): string
  {
    BackupPath(h.backupDir, h.stamp)
  }

  /** The `foreach` over the git commands: runs them in order up to and
      including the first that fails, then extracts `archive`; reports
      whether all of them succeeded. */
  function RunGit(cmds: seq<Command>, succeeds: Command -> bool, archive: string): (r: (seq<Command>, bool))
    ensures r.1 <==> forall i :: 0 <= i < |cmds| ==> succeeds(cmds[i])
    ensures r.1 ==> r.0 == cmds
    ensures !r.1 ==>
      && 2 <= |r.0| <= |cmds| + 1
      && r.0 == cmds[..|r.0| - 1] + [TarExtract(archive)]
      && (forall i :: 0 <= i < |r.0| - 2 ==> succeeds(cmds[i]))
      && !succeeds(cmds[|r.0| - 2])
  {
    if |cmds| == 0 then ([], true)
    else if !succeeds(cmds[0]) then ([cmds[0], TarExtract(archive)], false)
    else
      var rest := RunGit(cmds[1..], succeeds, archive);
      assert forall i :: 1 <= i < |cmds| ==> cmds[i] == cmds[1..][i - 1];
      assert [cmds[0]] + cmds[1..] == cmds;
      if !rest.1 then
        assert [cmds[0]] + cmds[1..][..|rest.0| - 1] == cmds[..|rest.0|];
        ([cmds[0]] + rest.0, rest.1)
      else
        ([cmds[0]] + rest.0, rest.1)
  }

  /** The three conditions that must hold before any git command runs. */
  predicate Prepared(h: Host)
  {
    h.succeeds(WhichGit) && h.hasGitDir && h.succeeds(TarCreate(Archive(h)))
  }

  predicate AllGitSucceed(h: Host)
  {
    h.succeeds(GitFetch) && h.succeeds(GitReset) && h.succeeds(GitClean)
  }

  function DeployWebsite(h: Host): (o: Outcome)
    ensures o.success <==> Prepared(h) && AllGitSucceed(h) && h.hasIndex && h.hasCssDir
    ensures o.backups.Some? <==> Prepared(h)
    ensures !Prepared(h) ==> o.trace == (if h.succeeds(WhichGit) && h.hasGitDir then [WhichGit, TarCreate(Archive(h))] else [WhichGit])
    ensures Prepared(h) ==> |o.trace| >= 2 && o.trace[..2] == [WhichGit, TarCreate(Archive(h))]
  {
    if !h.succeeds(WhichGit) then Outcome([WhichGit], None, false)
    else if !h.hasGitDir then Outcome([WhichGit], None, false)
    else
      var archive := Archive(h);
      if !h.succeeds(TarCreate(archive)) then Outcome([WhichGit, TarCreate(archive)], None, false)
      else
        var clean := Retain(AddFile(h.existingBackups, archive));
        var git := RunGit(GitCommands, h.succeeds, archive);
        var trace := [WhichGit, TarCreate(archive)] + git.0;
        assert git.1 <==> AllGitSucceed(h) by {
          assert GitCommands[0] == GitFetch && GitCommands[1] == GitReset && GitCommands[2] == GitClean;
        }
        Outcome(trace, Some(clean), git.1 && h.hasIndex && h.hasCssDir)
  }

  /** A failure of git command `k` (0-based) after the earlier ones
      succeeded: the later ones are skipped, the archive just written is
      extracted, and the deployment fails. */
  lemma GitFailureRestores(h: Host, k: nat)
    requires Prepared(h)
    requires k < |GitCommands|
    requires forall j :: 0 <= j < k ==> h.succeeds(GitCommands[j])
    requires !h.succeeds(GitCommands[k])
    ensures DeployWebsite(h).trace ==
      [WhichGit, TarCreate(Archive(h))] + GitCommands[..k + 1] + [TarExtract(Archive(h))]
    ensures !DeployWebsite(h).success
  {
    var git := RunGit(GitCommands, h.succeeds, Archive(h));
    assert !git.1;
    assert |git.0| - 2 == k;
  }

  /** After a clean git run, a missing `index.html` or `css/` fails the
      deployment without restoring anything. */
  lemma PostCheckFailureKeepsUpdate(h: Host)
    requires Prepared(h) && AllGitSucceed(h)
    requires !h.hasIndex || !h.hasCssDir
    ensures DeployWebsite(h).trace == [WhichGit, TarCreate(Archive(h))] + GitCommands
    ensures !DeployWebsite(h).success
  {
    var g := GitCommands;
    assert g[0] == GitFetch && g[1] == GitReset && g[2] == GitClean;
  }

  /** The exit status of the restore is never looked at: two hosts that
      differ only in how `tar -xzf` ends deploy identically. */
  lemma RestoreStatusIgnored(h1: Host, h2: Host)
    requires forall c: Command :: !c.TarExtract? ==> h1.succeeds(c) == h2.succeeds(c)
    requires h1.(succeeds := h2.succeeds) == h2
    ensures DeployWebsite(h1) == DeployWebsite(h2)
  {
    var a := Archive(h1);
    assert Archive(h2) == a;
    assert h1.succeeds(WhichGit) == h2.succeeds(WhichGit);
    assert h1.succeeds(TarCreate(a)) == h2.succeeds(TarCreate(a));
    if Prepared(h1) {
      RunGitIgnoresRestore(GitCommands, h1.succeeds, h2.succeeds, a);
    }
  }

  lemma {:induction false} RunGitIgnoresRestore(cmds: seq<Command>, s1: Command -> bool, s2: Command -> bool, archive: string)
    requires forall i :: 0 <= i < |cmds| ==> !cmds[i].TarExtract? && s1(cmds[i]) == s2(cmds[i])
    ensures RunGit(cmds, s1, archive) == RunGit(cmds, s2, archive)
    decreases |cmds|
  {
    if |cmds| > 0 && s1(cmds[0]) {
      assert forall i :: 1 <= i < |cmds| ==> cmds[i] == cmds[1..][i - 1];
      RunGitIgnoresRestore(cmds[1..], s1, s2, archive);
    }
  }

  /** An archive named above every archive already present survives the
      clean-up of its own deployment. */
  lemma NewArchiveKept(h: Host)
    requires Prepared(h)
    requires forall b :: b in h.existingBackups ==> Less(b, Archive(h))
    ensures DeployWebsite(h).backups.Some?
    ensures Archive(h) in DeployWebsite(h).backups.value.kept
  {
    var a := Archive(h);
    var listing := AddFile(h.existingBackups, a);
    forall y | y in listing && y != a
      ensures Less(y, a)
    {
    }
    NewestKept(listing, a);
  }

  /** No git command runs unless git is installed, the site is a working
      copy and the backup was written. */
  lemma GitOnlyWhenPrepared(h: Host, i: nat)
    requires i < |DeployWebsite(h).trace| && IsGit(DeployWebsite(h).trace[i])
    ensures Prepared(h) && i >= 2
  {
  }

  /** A restore always extracts the archive written by the same run, comes
      last, and goes with a failed deployment. */
  lemma RestoreIsLastAndOwnArchive(h: Host, i: nat)
    requires i < |DeployWebsite(h).trace| && DeployWebsite(h).trace[i].TarExtract?
    ensures DeployWebsite(h).trace[i] == TarExtract(Archive(h))
    ensures i == |DeployWebsite(h).trace| - 1
    ensures !DeployWebsite(h).success
  {
    var o := DeployWebsite(h);
    assert Prepared(h);
    var git := RunGit(GitCommands, h.succeeds, Archive(h));
    assert o.trace == [WhichGit, TarCreate(Archive(h))] + git.0;
    assert GitCommands[0] == GitFetch && GitCommands[1] == GitReset && GitCommands[2] == GitClean;
  }
}
