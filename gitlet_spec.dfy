/**
 * What each Gitlet command does to the repository, as functions on one value:
 * the commit store, the branch registry, the staging area and the working
 * directory (file name -> blob id of its current contents). Every message a
 * command prints before `System.exit(0)` is an `Error` outcome; the state in
 * the outcome is what the command has persisted by then.
 */
module GitletSpec {
  import opened Wrappers
  import opened GitletCommit
  import opened GitletBranch

  datatype Repo = Repo(
    commits: set<CommitId>,                // the commits directory
    branches: map<BranchName, CommitId>,   // the branch registry
    head: BranchName,                      // the current branch
    added: map<FileName, BlobId>,          // staged for addition
    removed: map<FileName, BlobId>,        // staged for removal
    cwd: map<FileName, BlobId>)            // the working directory

  datatype Error =
    | FileDoesNotExist
    | EmptyMessage
    | NoChangesAdded
    | NoReasonToRemove
    | BranchAlreadyExists
    | BranchDoesNotExist
    | CannotRemoveCurrentBranch
    | NoSuchCommit
    | FileNotInCommit
    | NoSuchBranch
    | AlreadyCurrentBranch
    | UntrackedFileInTheWay

  /** The line a failing command prints. */
  function Message(e: Error): string
  {
    match e
    case FileDoesNotExist => "File does not exist."
    case EmptyMessage => "Please enter a commit message."
    case NoChangesAdded => "No changes added to the commit."
    case NoReasonToRemove => "No reason to remove the file."
    case BranchAlreadyExists => "A branch with that name already exists."
    case BranchDoesNotExist => "A branch with that name does not exist."
    case CannotRemoveCurrentBranch => "Cannot remove the current branch."
    case NoSuchCommit => "No commit with that id exists."
    case FileNotInCommit => "File does not exist in that commit."
    case NoSuchBranch => "No such branch exists."
    case AlreadyCurrentBranch => "No need to checkout the current branch."
    case UntrackedFileInTheWay => "There is an untracked file in the way; delete it, or add and commit it first."
  }

  /** The state a command leaves behind and the message it printed, if any. */
  datatype Outcome = Outcome(repo: Repo, error: Option<Error>)

  /**
   * What every command keeps true of an initialised repository: the current
   * branch exists, every branch points at a stored commit, no file is staged
   * both ways, and the parent of a stored commit is stored.
   */
  predicate Inv(r: Repo)
  {
    && r.head in r.branches
    && (forall b :: b in r.branches ==> r.branches[b] in r.commits)
    && r.added.Keys !! r.removed.Keys
    && (forall id :: id in r.commits && id.snapshot.parent.Some? ==> id.snapshot.parent.value in r.commits)
  }

  function HeadId(r: Repo): CommitId
    requires r.head in r.branches
  {
    r.branches[r.head]
  }

  function HeadCommit(r: Repo): Commit
    requires r.head in r.branches
  {
    Load(HeadId(r))
  }

  function SameBlobID(id1: BlobId, id2: BlobId): bool
  {
    id1 == id2
  }

  /** `init`: the origin commit, branch `master` pointing at it, an empty staging area. */
  function Init(cwd: map<FileName, BlobId>): Repo
  {
    var origin := GetCommitID(InitialCommit);
    Repo({origin}, map[Master := origin], Master, map[], map[], cwd)
  }

  /** `add`: stage the file's current blob, or unstage it when it matches the head commit. */
  function Add(r: Repo, fileName: FileName): Outcome
    requires Inv(r)
  {
    if fileName !in r.cwd then Outcome(r, Some(FileDoesNotExist))
    else
      var blob := r.cwd[fileName];
      var head := HeadCommit(r);
      var removed := r.removed - {fileName};
      var added := if ContainsFile(head, fileName) && SameBlobID(blob, head.files[fileName])
                   then r.added - {fileName}
                   else r.added[fileName := blob];
      Outcome(r.(added := added, removed := removed), None)
  }

  /** The files of a new commit: the parent's, with staged additions written in and staged removals deleted. */
  function Snapshot(files: map<FileName, BlobId>, added: map<FileName, BlobId>,
                    removed: map<FileName, BlobId>): map<FileName, BlobId>
  {
    (files + added) - removed.Keys
  }

  /** `commit`: a new commit whose parent is the head commit; the current branch moves to it. */
  function MakeCommit(r: Repo, message: string, now: Timestamp): Outcome
    requires Inv(r)
  {
    if message == "" then Outcome(r, Some(EmptyMessage))
    else if r.added == map[] && r.removed == map[] then Outcome(r, Some(NoChangesAdded))
    else
      var prev := HeadId(r);
      var c := Commit(message, Some(prev), now, Snapshot(Load(prev).files, r.added, r.removed));
      var id := GetCommitID(c);
      Outcome(r.(commits := r.commits + {id}, branches := r.branches[r.head := id],
                 added := map[], removed := map[]), None)
  }

  /** `rm`: unstage the file; if the head commit tracks it, stage its removal and delete it. */
  function Remove(r: Repo, fileName: FileName): Outcome
    requires Inv(r)
  {
    if fileName !in r.cwd then Outcome(r, Some(FileDoesNotExist))
    else if fileName !in r.added && !ContainsFile(HeadCommit(r), fileName) then
      Outcome(r, Some(NoReasonToRemove))
    else if ContainsFile(HeadCommit(r), fileName) then
      Outcome(r.(added := r.added - {fileName},
                 removed := r.removed[fileName := r.cwd[fileName]],
                 cwd := r.cwd - {fileName}), None)
    else
      Outcome(r.(added := r.added - {fileName}), None)
  }

  /** The commits from `id` back to the origin commit, following parents. */
  function History(id: CommitId): seq<Commit>
    decreases id
  {
    [Load(id)] + match id.snapshot.parent
                 case None => []
                 case Some(p) => History(p)
  }

  /** `log`: the history of the head commit. */
  function Log(r: Repo): seq<Commit>
    requires Inv(r)
  {
    History(HeadId(r))
  }

  /** An entry of the "Modifications Not Staged For Commit" section. */
  datatype Unstaged = Modified(name: FileName) | Deleted(name: FileName)

  /** What `status` reports besides the branches section. */
  datatype StatusReport = StatusReport(
    staged: set<FileName>,
    removed: set<FileName>,
    unstaged: set<Unstaged>,
    untracked: set<FileName>)

  /** Tracked files among `names` that changed or vanished on disk without being staged. */
  function TrackedChanges(tracked: map<FileName, BlobId>, added: map<FileName, BlobId>,
                          removed: map<FileName, BlobId>, cwd: map<FileName, BlobId>,
                          names: set<FileName>): set<Unstaged>
  {
    (set n | n in names && n in tracked && n in cwd && !SameBlobID(tracked[n], cwd[n]) && n !in added :: Modified(n))
    + (set n | n in names && n in tracked && n !in cwd && n !in removed :: Deleted(n))
  }

  /** Staged files among `names` whose blob differs from, or is missing in, `files`. */
  function StagedChanges(added: map<FileName, BlobId>, files: map<FileName, BlobId>,
                         names: set<FileName>): set<Unstaged>
  {
    (set n | n in names && n in added && n in files && !SameBlobID(added[n], files[n]) :: Modified(n))
    + (set n | n in names && n in added && n !in files :: Deleted(n))
  }

  /**
   * The "Modifications Not Staged For Commit" entries as `status` computes
   * them: staged files are compared with the working files left over after
   * the tracked ones were taken out, so a staged file the head commit also
   * tracks always counts as deleted.
   */
  function UnstagedChanges(tracked: map<FileName, BlobId>, added: map<FileName, BlobId>,
                           removed: map<FileName, BlobId>, cwd: map<FileName, BlobId>): set<Unstaged>
  {
    TrackedChanges(tracked, added, removed, cwd, tracked.Keys)
    + StagedChanges(added, cwd - tracked.Keys, added.Keys)
  }

  /** `status`: staged files, unstaged modifications, and the files neither tracked nor staged. */
  function Status(r: Repo): StatusReport
    requires Inv(r)
  {
    var tracked := HeadCommit(r).files;
    StatusReport(r.added.Keys, r.removed.Keys,
                 UnstagedChanges(tracked, r.added, r.removed, r.cwd),
                 r.cwd.Keys - tracked.Keys - r.added.Keys)
  }

  /** The unstaged modifications with staged files compared against the whole working directory. */
  function IntendedUnstagedChanges(tracked: map<FileName, BlobId>, added: map<FileName, BlobId>,
                                   removed: map<FileName, BlobId>, cwd: map<FileName, BlobId>): set<Unstaged>
  {
    TrackedChanges(tracked, added, removed, cwd, tracked.Keys)
    + StagedChanges(added, cwd, added.Keys)
  }

  /** `status` with the staged-file comparison corrected. */
  function IntendedStatus(r: Repo): StatusReport
    requires Inv(r)
  {
    var tracked := HeadCommit(r).files;
    StatusReport(r.added.Keys, r.removed.Keys,
                 IntendedUnstagedChanges(tracked, r.added, r.removed, r.cwd),
                 r.cwd.Keys - tracked.Keys - r.added.Keys)
  }

  /** `branch`: a new branch at the head commit. */
  function CreateBranch(r: Repo, name: BranchName): Outcome
    requires Inv(r)
  {
    if name in r.branches then Outcome(r, Some(BranchAlreadyExists))
    else Outcome(r.(branches := r.branches[name := HeadId(r)]), None)
  }

  /** `rm-branch`: deletes a branch other than the current one. */
  function RemoveBranch(r: Repo, name: BranchName): Outcome
    requires Inv(r)
  {
    if name !in r.branches then Outcome(r, Some(BranchDoesNotExist))
    else if name == r.head then Outcome(r, Some(CannotRemoveCurrentBranch))
    else Outcome(r.(branches := r.branches - {name}), None)
  }

  /** The commit argument of `checkout [commit] -- file`: the word `head` or a commit id. */
  datatype Revision = Head | ById(id: CommitId)

  /** `checkout [commit] -- file`: copies one file of a commit into the working directory. */
  function CheckoutFile(r: Repo, rev: Revision, fileName: FileName): Outcome
    requires Inv(r)
  {
    var id := if rev.Head? then HeadId(r) else rev.id;
    if id !in r.commits then Outcome(r, Some(NoSuchCommit))
    else if !ContainsFile(Load(id), fileName) then Outcome(r, Some(FileNotInCommit))
    else Outcome(r.(cwd := r.cwd[fileName := Load(id).files[fileName]]), None)
  }

  /** Some working file is neither staged for addition nor tracked by `prev`. */
  predicate UntrackedInTheWay(r: Repo, prev: Commit)
  {
    exists f :: f in r.cwd && f !in r.added && !ContainsFile(prev, f)
  }

  /**
   * Replaces the files of commit `prevID` in the working directory by those of
   * `newID` and clears the staging area; refuses if any working file is untracked.
   */
  function OverwriteCWD(r: Repo, prevID: CommitId, newID: CommitId): Outcome
  {
    var prev := Load(prevID);
    var target := Load(newID);
    if UntrackedInTheWay(r, prev) then Outcome(r, Some(UntrackedFileInTheWay))
    else Outcome(r.(cwd := (r.cwd + target.files) - (prev.files.Keys - target.files.Keys),
                    added := map[], removed := map[]), None)
  }

  /** `checkout branch`: makes the branch current (saved at once), then overwrites the working directory. */
  function CheckoutBranch(r: Repo, branch: BranchName): Outcome
    requires Inv(r)
  {
    if branch !in r.branches then Outcome(r, Some(NoSuchBranch))
    else if branch == r.head then Outcome(r, Some(AlreadyCurrentBranch))
    else OverwriteCWD(r.(head := branch), HeadId(r), r.branches[branch])
  }

  /** `reset`: overwrites the working directory with a stored commit and points the current branch at it. */
  function Reset(r: Repo, id: CommitId): Outcome
    requires Inv(r)
  {
    if id !in r.commits then Outcome(r, Some(NoSuchCommit))
    else
      var o := OverwriteCWD(r, HeadId(r), id);
      if o.error.Some? then o
      else Outcome(o.repo.(branches := o.repo.branches[r.head := id]), None)
  }

  // ---------------------------------------------------------------------------
  // Properties

  /** A new repository has one branch, `master`, current, at the origin commit, and nothing staged. */
  lemma InitIsValid(cwd: map<FileName, BlobId>)
    ensures Inv(Init(cwd))
    ensures Init(cwd).branches.Keys == {Master} && Init(cwd).head == Master
    ensures Log(Init(cwd)) == [InitialCommit]
    ensures Init(cwd).added == map[] && Init(cwd).removed == map[]
  {
  }

  /** `add` of a file that is not in the working directory fails and changes nothing. */
  lemma AddMissingFile(r: Repo, fileName: FileName)
    requires Inv(r) && fileName !in r.cwd
    ensures Add(r, fileName) == Outcome(r, Some(FileDoesNotExist))
  {
  }

  /**
   * `add` always cancels a pending removal; it unstages a file whose blob the
   * head commit already tracks and stages any other blob; nothing else changes.
   */
  lemma AddStagesOrReverts(r: Repo, fileName: FileName)
    requires Inv(r) && fileName in r.cwd
    ensures var o := Add(r, fileName);
      && o.error == None
      && Inv(o.repo)
      && fileName !in o.repo.removed
      && (if fileName in HeadCommit(r).files && HeadCommit(r).files[fileName] == r.cwd[fileName]
          then fileName !in o.repo.added
          else fileName in o.repo.added && o.repo.added[fileName] == r.cwd[fileName])
      && (forall n :: n != fileName ==> (n in o.repo.added <==> n in r.added) && (n in o.repo.removed <==> n in r.removed))
      && o.repo.commits == r.commits && o.repo.branches == r.branches && o.repo.head == r.head
      && o.repo.cwd == r.cwd
  {
  }

  /** Adding a file identical to its committed version, when it is not staged, leaves the staging area as it was. */
  lemma AddUnchangedFileIsNoOp(r: Repo, fileName: FileName)
    requires Inv(r) && fileName in r.cwd
    requires fileName in HeadCommit(r).files && HeadCommit(r).files[fileName] == r.cwd[fileName]
    requires fileName !in r.added && fileName !in r.removed
    ensures Add(r, fileName) == Outcome(r, None)
  {
    assert r.added - {fileName} == r.added;
    assert r.removed - {fileName} == r.removed;
  }

  /** `commit` with an empty message or nothing staged fails and changes nothing. */
  lemma CommitRejects(r: Repo, message: string, now: Timestamp)
    requires Inv(r)
    requires message == "" || (r.added == map[] && r.removed == map[])
    ensures MakeCommit(r, message, now).error.Some?
    ensures MakeCommit(r, message, now).repo == r
  {
  }

  /** Which files a new commit tracks, and with which blob. */
  lemma SnapshotFiles(files: map<FileName, BlobId>, added: map<FileName, BlobId>,
                      removed: map<FileName, BlobId>, n: FileName)
    ensures n in Snapshot(files, added, removed) <==> n !in removed && (n in added || n in files)
    ensures n in Snapshot(files, added, removed) && n in added ==> Snapshot(files, added, removed)[n] == added[n]
    ensures n in Snapshot(files, added, removed) && n !in added ==> Snapshot(files, added, removed)[n] == files[n]
  {
  }

  /**
   * A successful `commit`: the current branch points at a new stored commit
   * whose parent is the old head and whose files are the snapshot; other
   * branches keep their commits, staging is empty, and `log` gains one entry.
   */
  lemma CommitAdvancesBranch(r: Repo, message: string, now: Timestamp)
    requires Inv(r)
    requires message != "" && (r.added != map[] || r.removed != map[])
    ensures var o := MakeCommit(r, message, now);
      && o.error == None
      && Inv(o.repo)
      && o.repo.head == r.head
      && HeadCommit(o.repo) == Commit(message, Some(HeadId(r)), now, Snapshot(HeadCommit(r).files, r.added, r.removed))
      && (forall b :: b in r.branches && b != r.head ==> b in o.repo.branches && o.repo.branches[b] == r.branches[b])
      && o.repo.branches.Keys == r.branches.Keys
      && o.repo.added == map[] && o.repo.removed == map[]
      && o.repo.cwd == r.cwd
      && Log(o.repo) == [HeadCommit(o.repo)] + Log(r)
  {
  }

  /** `rm` of a file neither staged nor tracked reports so and changes nothing. */
  lemma RemoveWithoutReason(r: Repo, fileName: FileName)
    requires Inv(r) && fileName in r.cwd
    requires fileName !in r.added && fileName !in HeadCommit(r).files
    ensures Remove(r, fileName) == Outcome(r, Some(NoReasonToRemove))
  {
  }

  /** `rm` demands the file be in the working directory, even when the head commit tracks it. */
  lemma RemoveNeedsFileOnDisk(r: Repo, fileName: FileName)
    requires Inv(r) && fileName !in r.cwd
    ensures Remove(r, fileName) == Outcome(r, Some(FileDoesNotExist))
  {
  }

  /**
   * A successful `rm` unstages the file; a tracked file is also staged for
   * removal (with its current blob) and deleted from the working directory.
   */
  lemma RemoveUnstagesOrStagesRemoval(r: Repo, fileName: FileName)
    requires Inv(r) && fileName in r.cwd
    requires fileName in r.added || fileName in HeadCommit(r).files
    ensures var o := Remove(r, fileName);
      && o.error == None
      && Inv(o.repo)
      && o.repo.added == r.added - {fileName}
      && (if fileName in HeadCommit(r).files
          then o.repo.removed == r.removed[fileName := r.cwd[fileName]] && o.repo.cwd == r.cwd - {fileName}
          else o.repo.removed == r.removed && o.repo.cwd == r.cwd)
      && o.repo.branches == r.branches && o.repo.head == r.head && o.repo.commits == r.commits
  {
  }

  /** `branch` of a new name adds exactly that entry, at the head commit, and `rm-branch` takes it away again. */
  lemma CreateThenRemoveBranch(r: Repo, name: BranchName)
    requires Inv(r) && name !in r.branches
    ensures var o := CreateBranch(r, name);
      && o.error == None && Inv(o.repo)
      && o.repo.branches == r.branches[name := HeadId(r)]
      && RemoveBranch(o.repo, name) == Outcome(r, None)
  {
    assert r.branches[name := HeadId(r)] - {name} == r.branches;
  }

  /** `branch` of an existing name, and `rm-branch` of an unknown or the current branch, change nothing. */
  lemma BranchCommandsReject(r: Repo, name: BranchName)
    requires Inv(r)
    ensures name in r.branches ==> CreateBranch(r, name) == Outcome(r, Some(BranchAlreadyExists))
    ensures name !in r.branches ==> RemoveBranch(r, name) == Outcome(r, Some(BranchDoesNotExist))
    ensures RemoveBranch(r, r.head) == Outcome(r, Some(CannotRemoveCurrentBranch))
    ensures name in r.branches && name != r.head ==>
      RemoveBranch(r, name) == Outcome(r.(branches := r.branches - {name}), None) && Inv(RemoveBranch(r, name).repo)
  {
  }

  /** `checkout -- file` writes exactly that one file, with the commit's blob. */
  lemma CheckoutFileWritesOneFile(r: Repo, rev: Revision, fileName: FileName)
    requires Inv(r)
    ensures var id := if rev.Head? then HeadId(r) else rev.id;
      var o := CheckoutFile(r, rev, fileName);
      && (id !in r.commits ==> o == Outcome(r, Some(NoSuchCommit)))
      && (id in r.commits && fileName !in Load(id).files ==> o == Outcome(r, Some(FileNotInCommit)))
      && (id in r.commits && fileName in Load(id).files ==>
            o.error == None && Inv(o.repo) && o.repo == r.(cwd := r.cwd[fileName := Load(id).files[fileName]]))
  {
  }

  /** Overwriting refuses if any working file is untracked, whatever the target commit holds. */
  lemma OverwriteRefusesUntracked(r: Repo, prevID: CommitId, newID: CommitId, f: FileName)
    requires f in r.cwd && f !in r.added && f !in Load(prevID).files
    ensures OverwriteCWD(r, prevID, newID) == Outcome(r, Some(UntrackedFileInTheWay))
  {
  }

  /**
   * A successful overwrite leaves every file of the target commit on disk with
   * the target's blob, deletes the files only the previous commit tracked,
   * keeps every other working file, and empties the staging area.
   */
  lemma OverwriteRestoresSnapshot(r: Repo, prevID: CommitId, newID: CommitId)
    requires !UntrackedInTheWay(r, Load(prevID))
    ensures var o := OverwriteCWD(r, prevID, newID);
      var target := Load(newID).files;
      && o.error == None
      && (forall f :: f in target ==> f in o.repo.cwd && o.repo.cwd[f] == target[f])
      && (forall f :: f in Load(prevID).files && f !in target ==> f !in o.repo.cwd)
      && (forall f :: f in o.repo.cwd && f !in target ==> f in r.cwd && o.repo.cwd[f] == r.cwd[f] && f in r.added)
      && o.repo.added == map[] && o.repo.removed == map[]
      && o.repo.commits == r.commits && o.repo.branches == r.branches && o.repo.head == r.head
  {
  }

  /** `checkout branch` with an untracked file in the way fails, but the branch switch has already been saved. */
  lemma CheckoutSwitchesBeforeUntrackedCheck(r: Repo, branch: BranchName, f: FileName)
    requires Inv(r) && branch in r.branches && branch != r.head
    requires f in r.cwd && f !in r.added && f !in HeadCommit(r).files
    ensures CheckoutBranch(r, branch) == Outcome(r.(head := branch), Some(UntrackedFileInTheWay))
    ensures Inv(CheckoutBranch(r, branch).repo)
  {
  }

  /** A successful `checkout branch` makes the branch current and its commit's files the working files. */
  lemma CheckoutBranchSucceeds(r: Repo, branch: BranchName)
    requires Inv(r) && branch in r.branches && branch != r.head
    requires !UntrackedInTheWay(r, HeadCommit(r))
    ensures var o := CheckoutBranch(r, branch);
      && o.error == None && Inv(o.repo)
      && o.repo.head == branch && o.repo.branches == r.branches
      && (forall f :: f in Load(r.branches[branch]).files ==>
            f in o.repo.cwd && o.repo.cwd[f] == Load(r.branches[branch]).files[f])
      && o.repo.added == map[] && o.repo.removed == map[]
      && Log(o.repo) == History(r.branches[branch])
  {
    OverwriteRestoresSnapshot(r.(head := branch), HeadId(r), r.branches[branch]);
  }

  /** A successful `reset` points the current branch at the commit and restores its files; a failing one changes nothing. */
  lemma ResetMovesCurrentBranch(r: Repo, id: CommitId)
    requires Inv(r)
    ensures id !in r.commits ==> Reset(r, id) == Outcome(r, Some(NoSuchCommit))
    ensures id in r.commits && UntrackedInTheWay(r, HeadCommit(r)) ==>
      Reset(r, id) == Outcome(r, Some(UntrackedFileInTheWay))
    ensures id in r.commits && !UntrackedInTheWay(r, HeadCommit(r)) ==>
      var o := Reset(r, id);
      && o.error == None && Inv(o.repo)
      && o.repo.head == r.head && o.repo.branches == r.branches[r.head := id]
      && (forall f :: f in Load(id).files ==> f in o.repo.cwd && o.repo.cwd[f] == Load(id).files[f])
      && o.repo.added == map[] && o.repo.removed == map[]
      && Log(o.repo) == History(id)
  {
    if id in r.commits && !UntrackedInTheWay(r, HeadCommit(r)) {
      OverwriteRestoresSnapshot(r, HeadId(r), id);
    }
  }

  /** The history starts at the commit, links each entry to its parent, and ends at a commit without a parent. */
  lemma {:induction false} HistoryFollowsParents(id: CommitId)
    ensures |History(id)| >= 1 && History(id)[0] == Load(id)
    ensures forall i :: 0 <= i < |History(id)| - 1 ==>
      History(id)[i].parent.Some? && History(id)[i + 1] == Load(History(id)[i].parent.value)
    ensures History(id)[|History(id)| - 1].parent == None
    decreases id
  {
    match id.snapshot.parent
    case None =>
    case Some(p) =>
      HistoryFollowsParents(p);
      forall i | 0 <= i < |History(id)| - 1
        ensures History(id)[i].parent.Some? && History(id)[i + 1] == Load(History(id)[i].parent.value)
      {
        if i > 0 {
          assert History(id)[i] == History(p)[i - 1];
        }
      }
  }

  /**
   * The corrected report lists a file as deleted exactly when it is tracked
   * or staged and missing from disk (and not staged for removal, when tracked),
   * and as modified only when it is on disk with other contents.
   */
  lemma IntendedStatusMatchesDisk(r: Repo, n: FileName)
    requires Inv(r)
    ensures var s := IntendedStatus(r);
      var tracked := HeadCommit(r).files;
      && (Deleted(n) in s.unstaged <==> n !in r.cwd && ((n in tracked && n !in r.removed) || n in r.added))
      && (Modified(n) in s.unstaged <==>
            n in r.cwd && ((n in tracked && n !in r.added && tracked[n] != r.cwd[n]) || (n in r.added && r.added[n] != r.cwd[n])))
  {
    var tracked := HeadCommit(r).files;
    var u := IntendedUnstagedChanges(tracked, r.added, r.removed, r.cwd);
    if n !in r.cwd && ((n in tracked && n !in r.removed) || n in r.added) {
      if n in tracked && n !in r.removed {
        assert Deleted(n) in TrackedChanges(tracked, r.added, r.removed, r.cwd, tracked.Keys);
      } else {
        assert Deleted(n) in StagedChanges(r.added, r.cwd, r.added.Keys);
      }
    }
    if n in r.cwd && n in tracked && n !in r.added && tracked[n] != r.cwd[n] {
      assert Modified(n) in TrackedChanges(tracked, r.added, r.removed, r.cwd, tracked.Keys);
    }
    if n in r.cwd && n in r.added && r.added[n] != r.cwd[n] {
      assert Modified(n) in StagedChanges(r.added, r.cwd, r.added.Keys);
    }
  }

  /** When no staged file is also tracked by the head commit, `status` as written gives the corrected report. */
  lemma StatusAgreesWithoutStagedTrackedFiles(r: Repo)
    requires Inv(r) && r.added.Keys !! HeadCommit(r).files.Keys
    ensures Status(r) == IntendedStatus(r)
  {
    var tracked := HeadCommit(r).files;
    assert StagedChanges(r.added, r.cwd - tracked.Keys, r.added.Keys) == StagedChanges(r.added, r.cwd, r.added.Keys);
  }

  /**
   * A committed file edited on disk and staged again is reported by `status`
   * as deleted, although it is in the working directory with the staged contents.
   */
  lemma StatusReportsStagedEditAsDeleted(old_blob: BlobId, new_blob: BlobId)
    requires old_blob != new_blob
    ensures var c := Commit("edit", Some(GetCommitID(InitialCommit)), 1, map["a.txt" := old_blob]);
      var id := GetCommitID(c);
      var r := Repo({GetCommitID(InitialCommit), id}, map[Master := id], Master,
                    map["a.txt" := new_blob], map[], map["a.txt" := new_blob]);
      && Inv(r)
      && Deleted("a.txt") in Status(r).unstaged
      && Deleted("a.txt") !in IntendedStatus(r).unstaged
      && Modified("a.txt") !in IntendedStatus(r).unstaged
  {
    var c := Commit("edit", Some(GetCommitID(InitialCommit)), 1, map["a.txt" := old_blob]);
    var id := GetCommitID(c);
    var r := Repo({GetCommitID(InitialCommit), id}, map[Master := id], Master,
                  map["a.txt" := new_blob], map[], map["a.txt" := new_blob]);
    assert Deleted("a.txt") in StagedChanges(r.added, r.cwd - HeadCommit(r).files.Keys, r.added.Keys);
    IntendedStatusMatchesDisk(r, "a.txt");
  }

  /** A file that is committed as it is on disk, and not staged, appears nowhere in `status`. */
  lemma StatusCleanFor(r: Repo, fileName: FileName)
    requires Inv(r) && fileName in r.cwd
    requires fileName in HeadCommit(r).files && HeadCommit(r).files[fileName] == r.cwd[fileName]
    requires fileName !in r.added && fileName !in r.removed
    ensures var s := Status(r);
      && Modified(fileName) !in s.unstaged && Deleted(fileName) !in s.unstaged
      && fileName !in s.untracked && fileName !in s.staged && fileName !in s.removed
  {
  }

  /** After `add` and `commit` of a file, `status` lists it nowhere: not staged, not modified, not untracked. */
  lemma AddCommitStatusIsClean(r: Repo, fileName: FileName, message: string, now: Timestamp)
    requires Inv(r) && fileName in r.cwd && message != ""
    ensures var r1 := Add(r, fileName).repo;
      var r2 := MakeCommit(r1, message, now).repo;
      var s := Status(r2);
      && Modified(fileName) !in s.unstaged && Deleted(fileName) !in s.unstaged
      && fileName !in s.untracked && fileName !in s.staged && fileName !in s.removed
  {
    AddStagesOrReverts(r, fileName);
    var r1 := Add(r, fileName).repo;
    if r1.added != map[] || r1.removed != map[] {
      CommitAdvancesBranch(r1, message, now);
      var r2 := MakeCommit(r1, message, now).repo;
      SnapshotFiles(HeadCommit(r1).files, r1.added, r1.removed, fileName);
      StatusCleanFor(r2, fileName);
    } else {
      StatusCleanFor(r1, fileName);
    }
  }

  /** `init`, `add a.txt`, `commit "first"`: the log holds the new commit, then the origin commit. */
  lemma FirstCommitScenario(hello: BlobId, now: Timestamp)
    ensures var r0 := Init(map["a.txt" := hello]);
      var r1 := Add(r0, "a.txt").repo;
      var o := MakeCommit(r1, "first", now);
      && o.error == None
      && |Log(o.repo)| == 2
      && Log(o.repo)[0].message == "first"
      && Log(o.repo)[0].files == map["a.txt" := hello]
      && Log(o.repo)[1] == InitialCommit
  {
    var r0 := Init(map["a.txt" := hello]);
    InitIsValid(map["a.txt" := hello]);
    var r1 := Add(r0, "a.txt").repo;
    assert r1.added == map["a.txt" := hello] && r1.removed == map[];
    CommitAdvancesBranch(r1, "first", now);
    assert Snapshot(map[], r1.added, r1.removed) == map["a.txt" := hello];
  }
}
