/**
 * The Gitlet commands as they run: each method loads the staging area and the
 * branch registry, works on them through their own methods, and walks the
 * commit files, the staging maps and the working directory with loops. Every
 * command is proved to leave exactly the state, and print exactly the
 * message, that `GitletSpec` gives for it.
 */
module GitletRepository {
  import opened Wrappers
  import opened GitletCommit
  import opened GitletStaging
  import opened GitletBranch
  import opened StringOrder
  import Spec = GitletSpec

  class Repository {
    /** The commits directory, one entry per saved commit. */
    var commits: set<CommitId>
    /** The working directory: file name -> blob id of its contents. */
    var cwd: map<FileName, BlobId>
    const staging: Staging
    const branches: Branch

    /** The whole repository as one value. */
    function State(): Spec.Repo
      reads this, staging, branches
    {
      Spec.Repo(commits, branches.branchMap, branches.head, staging.add, staging.remove, cwd)
    }

    ghost predicate Valid()
      reads this, staging, branches
    {
      Spec.Inv(State())
    }

    /** `init`: saves the origin commit, creates branch `master` at it and an empty staging area. */
    constructor Initialize(files: map<FileName, BlobId>)
      ensures Valid()
      ensures State() == Spec.Init(files)
    {
      var origin := GetCommitID(InitialCommit);
      commits := {origin};
      cwd := files;
      branches := new Branch(origin);
      staging := new Staging();
    }

    /** `add`. */
    method Add(fileName: FileName) returns (error: Option<Spec.Error>)
      requires Valid()
      modifies staging
      ensures Valid()
      ensures Spec.Outcome(State(), error) == Spec.Add(old(State()), fileName)
    {
      if fileName !in cwd {
        return Some(Spec.FileDoesNotExist);
      }
      var addedFileBlobID := cwd[fileName];
      var headCommit := Load(branches.GetHEADCommitID().value);
      staging.CancelRemove(fileName);
      if ContainsFile(headCommit, fileName) {
        var headBlobID := GetBlobID(headCommit, fileName).value;
        if Spec.SameBlobID(addedFileBlobID, headBlobID) {
          staging.CancelAdd(fileName);
        } else {
          staging.StageAdd(fileName, addedFileBlobID);
        }
      } else {
        staging.StageAdd(fileName, addedFileBlobID);
      }
      error := None;
    }

    /** `commit`: builds the new snapshot by writing in every staged addition, then deleting every staged removal. */
    method MakeCommit(message: string, now: Timestamp) returns (error: Option<Spec.Error>)
      requires Valid()
      modifies this, staging, branches
      ensures Valid()
      ensures Spec.Outcome(State(), error) == Spec.MakeCommit(old(State()), message, now)
    {
      if message == "" {
        return Some(Spec.EmptyMessage);
      }
      var added := staging.add;
      var removed := staging.remove;
      if added == map[] && removed == map[] {
        return Some(Spec.NoChangesAdded);
      }
      var prevCommitID := branches.GetHEADCommitID().value;
      var prevFiles := Load(prevCommitID).files;
      var commitFiles := prevFiles;
      commitFiles := PutAll(commitFiles, added);
      commitFiles := RemoveAll(commitFiles, removed.Keys);
      assert commitFiles == Spec.Snapshot(prevFiles, added, removed);

      var newCommit := Commit(message, Some(prevCommitID), now, commitFiles);
      var newCommitID := GetCommitID(newCommit);
      branches.UpdateBranch(newCommitID);
      staging.Clear();
      commits := commits + {newCommitID};
      error := None;
    }

    /** `rm`. */
    method Remove(fileName: FileName) returns (error: Option<Spec.Error>)
      requires Valid()
      modifies this, staging
      ensures Valid()
      ensures Spec.Outcome(State(), error) == Spec.Remove(old(State()), fileName)
    {
      if fileName !in cwd {
        return Some(Spec.FileDoesNotExist);
      }
      var removedFileBlobID := cwd[fileName];
      var headCommit := Load(branches.GetHEADCommitID().value);
      if !staging.HasAdded(fileName) && !ContainsFile(headCommit, fileName) {
        return Some(Spec.NoReasonToRemove);
      }
      staging.CancelAdd(fileName);
      if ContainsFile(headCommit, fileName) {
        staging.StageRemove(fileName, removedFileBlobID);
        cwd := cwd - {fileName};
      }
      error := None;
    }

    /** `log`: the commits met walking parent links from the head commit, in the order they are printed. */
    method Log() returns (shown: seq<Commit>)
      requires Valid()
      ensures shown == Spec.Log(State())
    {
      var commitID := branches.GetHEADCommitID();
      shown := [];
      while commitID.Some?
        invariant commitID.Some? ==> shown + Spec.History(commitID.value) == Spec.Log(State())
        invariant commitID.None? ==> shown == Spec.Log(State())
        decreases commitID
      {
        var commit := Load(commitID.value);
        shown := shown + [commit];
        commitID := commit.parent;
      }
    }

    /**
     * `status`: the branches section (from `Branch.PrintBranches`) and the
     * report, built as the source builds it: one pass over the tracked files,
     * one over the staged files, each taking its names out of a copy of the
     * working directory; what is left of the copy is untracked.
     */
    method Status() returns (branchLines: seq<string>, order: seq<BranchName>, report: Spec.StatusReport)
      requires Valid()
      ensures report == Spec.Status(State())
      ensures StrictlySorted(order)
      ensures forall b :: b in branches.branchMap <==> b in order
      ensures |branchLines| == |order| + 2
      ensures branchLines[0] == "=== Branches ===" && branchLines[|branchLines| - 1] == ""
      ensures forall i :: 0 <= i < |order| ==> branchLines[i + 1] == BranchLine(order[i], branches.head)
    {
      var added := staging.add;
      var removed := staging.remove;
      var commitFiles := Load(branches.GetHEADCommitID().value).files;
      branchLines, order := branches.PrintBranches();

      var trackedChanges, leftover := ScanTracked(commitFiles, added, removed, cwd);
      var stagedChanges, untracked := ScanStaged(added, leftover);
      report := Spec.StatusReport(added.Keys, removed.Keys, trackedChanges + stagedChanges, untracked.Keys);
    }

    /** `branch`. */
    method CreateBranch(branchName: BranchName) returns (error: Option<Spec.Error>)
      requires Valid()
      modifies branches
      ensures Valid()
      ensures Spec.Outcome(State(), error) == Spec.CreateBranch(old(State()), branchName)
    {
      var headCommitID := branches.GetHEADCommitID().value;
      if branches.ContainsBranch(branchName) {
        error := Some(Spec.BranchAlreadyExists);
      } else {
        branches.NewBranch(branchName, headCommitID);
        error := None;
      }
    }

    /** `rm-branch`. */
    method RemoveBranch(branch: BranchName) returns (error: Option<Spec.Error>)
      requires Valid()
      modifies branches
      ensures Valid()
      ensures Spec.Outcome(State(), error) == Spec.RemoveBranch(old(State()), branch)
    {
      if !branches.ContainsBranch(branch) {
        return Some(Spec.BranchDoesNotExist);
      } else if branches.GetHEAD() == branch {
        return Some(Spec.CannotRemoveCurrentBranch);
      }
      branches.RemoveBranch(branch);
      error := None;
    }

    /** `checkout [commit] -- file`. */
    method CheckoutFile(rev: Spec.Revision, fileName: FileName) returns (error: Option<Spec.Error>)
      requires Valid()
      modifies this
      ensures Valid()
      ensures Spec.Outcome(State(), error) == Spec.CheckoutFile(old(State()), rev, fileName)
    {
      var commitID := if rev.Head? then branches.GetHEADCommitID().value else rev.id;
      if commitID !in commits {
        return Some(Spec.NoSuchCommit);
      }
      var checkoutCommit := Load(commitID);
      if !ContainsFile(checkoutCommit, fileName) {
        return Some(Spec.FileNotInCommit);
      }
      cwd := cwd[fileName := GetBlobID(checkoutCommit, fileName).value];
      error := None;
    }

    /** `checkout branch`: HEAD is switched before the working directory is checked. */
    method CheckoutBranch(branch: BranchName) returns (error: Option<Spec.Error>)
      requires Valid()
      modifies this, staging, branches
      ensures Valid()
      ensures Spec.Outcome(State(), error) == Spec.CheckoutBranch(old(State()), branch)
    {
      if !branches.ContainsBranch(branch) {
        return Some(Spec.NoSuchBranch);
      }
      if branches.GetHEAD() == branch {
        return Some(Spec.AlreadyCurrentBranch);
      }
      var prevCommitID := branches.GetHEADCommitID().value;
      branches.ChangeHEAD(branch);
      var newCommitID := branches.GetHEADCommitID().value;
      error := OverwriteCWD(prevCommitID, newCommitID);
    }

    /** `reset`. */
    method Reset(commitID: CommitId) returns (error: Option<Spec.Error>)
      requires Valid()
      modifies this, staging, branches
      ensures Valid()
      ensures Spec.Outcome(State(), error) == Spec.Reset(old(State()), commitID)
    {
      if commitID !in commits {
        return Some(Spec.NoSuchCommit);
      }
      var prevCommitID := branches.GetHEADCommitID().value;
      error := OverwriteCWD(prevCommitID, commitID);
      if error.Some? {
        return;
      }
      branches.UpdateBranch(commitID);
    }

    /**
     * Refuses if some working file is neither staged nor tracked by the
     * previous commit; otherwise writes every file of the new commit, deletes
     * the previous commit's files the new one lacks, and clears the staging area.
     */
    method OverwriteCWD(prevCommitID: CommitId, newCommitID: CommitId) returns (error: Option<Spec.Error>)
      modifies this, staging
      ensures branches.branchMap == old(branches.branchMap) && branches.head == old(branches.head)
      ensures Spec.Outcome(State(), error) == Spec.OverwriteCWD(old(State()), prevCommitID, newCommitID)
    {
      var prevCommit := Load(prevCommitID);
      var cwdFiles := cwd.Keys;
      while cwdFiles != {}
        invariant cwdFiles <= cwd.Keys
        invariant forall f :: f in cwd && f !in cwdFiles ==> f in staging.add || ContainsFile(prevCommit, f)
        decreases cwdFiles
      {
        var file :| file in cwdFiles;
        if !staging.HasAdded(file) && !ContainsFile(prevCommit, file) {
          assert Spec.UntrackedInTheWay(State(), prevCommit);
          return Some(Spec.UntrackedFileInTheWay);
        }
        cwdFiles := cwdFiles - {file};
      }
      assert !Spec.UntrackedInTheWay(State(), prevCommit);

      var prevCommitFiles := prevCommit.files.Keys;
      var checkoutCommit := Load(newCommitID);
      var checkoutFiles := checkoutCommit.files;
      var files := PutAll(cwd, checkoutFiles);
      files := DeleteDroppedFiles(files, prevCommitFiles, checkoutFiles);
      cwd := files;
      staging.Clear();
      error := None;
    }
  }

  /**
   * Puts every entry of `updates` into a copy of `base`, one key at a time:
   * the added files of `commit` and the files `overwriteCWD` writes.
   */
  method PutAll(base: map<FileName, BlobId>, updates: map<FileName, BlobId>)
    returns (files: map<FileName, BlobId>)
    ensures files == base + updates
  {
    files := base;
    var toPut := updates.Keys;
    while toPut != {}
      invariant toPut <= updates.Keys
      invariant files.Keys == base.Keys + (updates.Keys - toPut)
      invariant forall f :: f in files ==>
                  files[f] == if f in updates && f !in toPut then updates[f] else base[f]
      decreases toPut
    {
      var key :| key in toPut;
      files := files[key := updates[key]];
      toPut := toPut - {key};
    }
  }

  /** Removes every key of `keys` from a copy of `base`, one at a time: the removed files of `commit`. */
  method RemoveAll(base: map<FileName, BlobId>, keys: set<FileName>) returns (files: map<FileName, BlobId>)
    ensures files == base - keys
  {
    files := base;
    var toRemove := keys;
    while toRemove != {}
      invariant toRemove <= keys
      invariant files == base - (keys - toRemove)
      decreases toRemove
    {
      var key :| key in toRemove;
      files := files - {key};
      toRemove := toRemove - {key};
    }
  }

  /**
   * The deleting pass of `overwriteCWD`: each file of the previous commit that
   * the checked-out commit does not track is deleted from the working directory.
   */
  method DeleteDroppedFiles(cwd: map<FileName, BlobId>, prevCommitFiles: set<FileName>,
                            checkoutFiles: map<FileName, BlobId>)
    returns (files: map<FileName, BlobId>)
    ensures files == cwd - (prevCommitFiles - checkoutFiles.Keys)
  {
    files := cwd;
    var toDelete := prevCommitFiles;
    while toDelete != {}
      invariant toDelete <= prevCommitFiles
      invariant files == cwd - ((prevCommitFiles - toDelete) - checkoutFiles.Keys)
      decreases toDelete
    {
      var file :| file in toDelete;
      if file !in checkoutFiles {
        files := files - {file};
      }
      toDelete := toDelete - {file};
    }
  }

  /**
   * The first pass of `status`: every file the head commit tracks is compared
   * with the working directory and taken out of a copy of it.
   */
  method ScanTracked(commitFiles: map<FileName, BlobId>, added: map<FileName, BlobId>,
                     removed: map<FileName, BlobId>, cwd: map<FileName, BlobId>)
    returns (modifiedFiles: set<Spec.Unstaged>, cwdFiles: map<FileName, BlobId>)
    ensures modifiedFiles == Spec.TrackedChanges(commitFiles, added, removed, cwd, commitFiles.Keys)
    ensures cwdFiles == cwd - commitFiles.Keys
  {
    cwdFiles := cwd;
    modifiedFiles := {};
    var toCheck := commitFiles.Keys;
    ghost var checked: set<FileName> := {};
    while toCheck != {}
      invariant toCheck <= commitFiles.Keys
      invariant checked == commitFiles.Keys - toCheck
      invariant cwdFiles == cwd - checked
      invariant modifiedFiles == Spec.TrackedChanges(commitFiles, added, removed, cwd, checked)
      decreases toCheck
    {
      var fileName :| fileName in toCheck;
      ScanBookkeeping(commitFiles.Keys, toCheck, checked, cwd, cwdFiles, fileName);
      TrackedChangesStep(commitFiles, added, removed, cwd, checked, fileName);
      ghost var next := Spec.TrackedChanges(commitFiles, added, removed, cwd, checked + {fileName});
      if fileName in cwdFiles {
        if !Spec.SameBlobID(commitFiles[fileName], cwdFiles[fileName]) && fileName !in added {
          modifiedFiles := modifiedFiles + {Spec.Modified(fileName)};
        }
      } else if fileName !in removed {
        modifiedFiles := modifiedFiles + {Spec.Deleted(fileName)};
      }
      assert modifiedFiles == next;
      cwdFiles := cwdFiles - {fileName};
      toCheck := toCheck - {fileName};
      checked := checked + {fileName};
    }
    assert checked == commitFiles.Keys;
  }

  /**
   * The second pass of `status`: every staged file is compared with what the
   * first pass left of the working directory, and taken out of it too.
   */
  method ScanStaged(added: map<FileName, BlobId>, leftover: map<FileName, BlobId>)
    returns (modifiedFiles: set<Spec.Unstaged>, cwdFiles: map<FileName, BlobId>)
    ensures modifiedFiles == Spec.StagedChanges(added, leftover, added.Keys)
    ensures cwdFiles == leftover - added.Keys
  {
    cwdFiles := leftover;
    modifiedFiles := {};
    var toCompare := added.Keys;
    ghost var compared: set<FileName> := {};
    while toCompare != {}
      invariant toCompare <= added.Keys
      invariant compared == added.Keys - toCompare
      invariant cwdFiles == leftover - compared
      invariant modifiedFiles == Spec.StagedChanges(added, leftover, compared)
      decreases toCompare
    {
      var fileName :| fileName in toCompare;
      ScanBookkeeping(added.Keys, toCompare, compared, leftover, cwdFiles, fileName);
      StagedChangesStep(added, leftover, compared, fileName);
      ghost var next := Spec.StagedChanges(added, leftover, compared + {fileName});
      if fileName in cwdFiles {
        if !Spec.SameBlobID(added[fileName], cwdFiles[fileName]) {
          modifiedFiles := modifiedFiles + {Spec.Modified(fileName)};
        }
      } else {
        modifiedFiles := modifiedFiles + {Spec.Deleted(fileName)};
      }
      assert modifiedFiles == next;
      cwdFiles := cwdFiles - {fileName};
      toCompare := toCompare - {fileName};
      compared := compared + {fileName};
    }
    assert compared == added.Keys;
  }

  /**
   * One pass step over the name `n` still to be examined keeps the pass's
   * bookkeeping: the examined names grow by `n`, the working files left over
   * lose it, and until then `n` is left over exactly when it is on disk.
   */
  lemma ScanBookkeeping(keys: set<FileName>, toCheck: set<FileName>, checked: set<FileName>,
                        cwd: map<FileName, BlobId>, leftover: map<FileName, BlobId>, n: FileName)
    requires n in toCheck && toCheck <= keys
    requires checked == keys - toCheck && leftover == cwd - checked
    ensures n in keys && n !in checked && toCheck - {n} <= keys
    ensures checked + {n} == keys - (toCheck - {n})
    ensures leftover - {n} == cwd - (checked + {n})
    ensures (n in leftover <==> n in cwd) && (n in leftover ==> leftover[n] == cwd[n])
  {
  }

  /** One more tracked name examined by the first `status` pass adds at most its own entry. */
  lemma TrackedChangesStep(tracked: map<FileName, BlobId>, added: map<FileName, BlobId>,
                           removed: map<FileName, BlobId>, cwd: map<FileName, BlobId>,
                           done: set<FileName>, n: FileName)
    requires n in tracked && n !in done
    ensures Spec.TrackedChanges(tracked, added, removed, cwd, done + {n})
         == Spec.TrackedChanges(tracked, added, removed, cwd, done)
            + (if n in cwd && !Spec.SameBlobID(tracked[n], cwd[n]) && n !in added then {Spec.Modified(n)}
               else if n !in cwd && n !in removed then {Spec.Deleted(n)} else {})
  {
  }

  /** One more staged name examined by the second `status` pass adds at most its own entry. */
  lemma StagedChangesStep(added: map<FileName, BlobId>, files: map<FileName, BlobId>,
                          done: set<FileName>, n: FileName)
    requires n in added && n !in done
    ensures Spec.StagedChanges(added, files, done + {n})
         == Spec.StagedChanges(added, files, done)
            + (if n in files && !Spec.SameBlobID(added[n], files[n]) then {Spec.Modified(n)}
               else if n !in files then {Spec.Deleted(n)} else {})
  {
  }
}
