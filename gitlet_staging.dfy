/**
 * The Gitlet staging area: files queued for addition and for removal, each
 * as file name -> blob id.
 */
module GitletStaging {
  import opened GitletCommit

  class Staging {
    /** Files staged for addition. */
    var add: map<FileName, BlobId>
    /** Files staged for removal. */
    var remove: map<FileName, BlobId>

    constructor ()
      ensures add == map[] && remove == map[]
    {
      add := map[];
      remove := map[];
    }

    method StageAdd(fileName: FileName, blobID: BlobId)
      modifies this
      ensures add == old(add)[fileName := blobID]
      ensures remove == old(remove)
    {
      add := add[fileName := blobID];
    }

    /** Unstages an addition; a no-op when the file is not staged. */
    method CancelAdd(fileName: FileName)
      modifies this
      ensures add == old(add) - {fileName}
      ensures fileName !in old(add) ==> add == old(add)
      ensures remove == old(remove)
    {
      add := add - {fileName};
    }

    method StageRemove(fileName: FileName, blobID: BlobId)
      modifies this
      ensures remove == old(remove)[fileName := blobID]
      ensures add == old(add)
    {
      remove := remove[fileName := blobID];
    }

    /** Unstages a removal; a no-op when the file is not staged for removal. */
    method CancelRemove(fileName: FileName)
      modifies this
      ensures remove == old(remove) - {fileName}
      ensures fileName !in old(remove) ==> remove == old(remove)
      ensures add == old(add)
    {
      remove := remove - {fileName};
    }

    /** Empties both maps (what a commit and a checkout do to the staging area). */
    method Clear()
      modifies this
      ensures add == map[] && remove == map[]
    {
      add := map[];
      remove := map[];
    }

    predicate HasAdded(fileName: FileName)
      reads this
    {
      fileName in add
    }

    predicate HasRemoved(fileName: FileName)
      reads this
    {
      fileName in remove
    }
  }
}
