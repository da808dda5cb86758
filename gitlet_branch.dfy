/**
 * The Gitlet branch registry: branch name -> commit id, and the name of the
 * current branch (HEAD).
 */
module GitletBranch {
  import opened Wrappers
  import opened GitletCommit
  import opened StringOrder

  type BranchName = string

  const Master: BranchName := "master"

  /** The line `status` prints for a branch: the current one is marked with `*`. */
  function BranchLine(name: BranchName, current: BranchName): string
  {
    if name == current then "*" + name else name
  }

  class Branch {
    var branchMap: map<BranchName, CommitId>
    var head: BranchName

    /** A registry with the single branch `master`, current, at `commitID`. */
    constructor (commitID: CommitId)
      ensures branchMap == map[Master := commitID]
      ensures head == Master
    {
      branchMap := map[];
      head := Master;
      new;
      UpdateBranch(commitID);
    }

    /** Makes `branch` current; does not check that it exists. */
    method ChangeHEAD(branch: BranchName)
      modifies this
      ensures head == branch
      ensures branchMap == old(branchMap)
    {
      head := branch;
    }

    /** Points the current branch at `commitID`; every other branch keeps its commit. */
    method UpdateBranch(commitID: CommitId)
      modifies this
      ensures branchMap == old(branchMap)[head := commitID]
      ensures head == old(head)
      ensures forall b :: b in old(branchMap) && b != head ==> b in branchMap && branchMap[b] == old(branchMap)[b]
    {
      branchMap := branchMap[head := commitID];
    }

    /** Inserts or overwrites the entry for `branch`. */
    method NewBranch(branch: BranchName, commitID: CommitId)
      modifies this
      ensures branchMap == old(branchMap)[branch := commitID]
      ensures head == old(head)
    {
      branchMap := branchMap[branch := commitID];
    }

    /** Deletes the entry for `branch`. */
    method RemoveBranch(branch: BranchName)
      modifies this
      ensures branchMap == old(branchMap) - {branch}
      ensures head == old(head)
    {
      branchMap := branchMap - {branch};
    }

    predicate ContainsBranch(branchName: BranchName)
      reads this
    {
      branchName in branchMap
    }

    function GetHEAD(): BranchName
      reads this
    {
      head
    }

    /** The commit the current branch points at (`None`, Java's `null`, if it has no entry). */
    function GetHEADCommitID(): Option<CommitId>
      reads this
    {
      if head in branchMap then Some(branchMap[head]) else None
    }

    /**
     * The branches section of `status`: a header, one line per branch in the
     * key order of the map, the current branch marked, and a blank line.
     * `order` is the order in which the branches were listed.
     */
    method PrintBranches() returns (lines: seq<string>, order: seq<BranchName>)
      ensures StrictlySorted(order)
      ensures forall i :: 0 <= i < |order| ==> order[i] in branchMap
      ensures forall b :: b in branchMap ==> b in order
      ensures |lines| == |order| + 2
      ensures lines[0] == "=== Branches ===" && lines[|lines| - 1] == ""
      ensures forall i :: 0 <= i < |order| ==> lines[i + 1] == BranchLine(order[i], head)
    {
      lines := ["=== Branches ==="];
      order := [];
      var rest := branchMap.Keys;
      while rest != {}
        invariant rest <= branchMap.Keys
        invariant forall b :: b in branchMap ==> b in order || b in rest
        invariant forall i :: 0 <= i < |order| ==> order[i] in branchMap && order[i] !in rest
        invariant StrictlySorted(order)
        invariant forall i, b :: 0 <= i < |order| && b in rest ==> Below(order[i], b)
        invariant |lines| == |order| + 1 && lines[0] == "=== Branches ==="
        invariant forall i :: 0 <= i < |order| ==> lines[i + 1] == BranchLine(order[i], head)
        decreases rest
      {
        LeastExists(rest);
        var key :| IsLeast(key, rest);
        lines := lines + [BranchLine(key, head)];
        order := order + [key];
        rest := rest - {key};
      }
      lines := lines + [""];
    }
  }
}
