/**
 * Gitlet commits: immutable snapshots of the tracked files.
 * A commit id is the SHA-1 of the commit's serialised fields. The model takes
 * that hash to be collision-free, so an id determines the fields it was
 * computed from; `CommitId` carries them and loading a commit is reading them back.
 */
module GitletCommit {
  import opened Wrappers

  type FileName = string
  /** The SHA-1 of a file's contents. */
  type BlobId = string
  /** A point in time; the origin commit is stamped with 0 (the epoch). */
  type Timestamp = nat

  datatype CommitId = Sha1(snapshot: Commit)

  /** message, parent commit (`None` for the origin commit), time, and file name -> blob id. */
  datatype Commit = Commit(message: string, parent: Option<CommitId>, time: Timestamp,
                           files: map<FileName, BlobId>)

  /** The origin commit every repository starts from. */
  const InitialCommit: Commit := Commit("initial commit", None, 0, map[])

  /**
   * The id under which a commit is stored; loading it gives the commit back.
   * This ensures is the collision-free SHA-1 assumption: the id determines
   * every field of the commit it was computed from.
   */
  function GetCommitID(c: Commit): (id: CommitId)
    ensures id.snapshot == c
  {
    Sha1(c)
  }

  /** Loads the commit stored under `id`. */
  function Load(id: CommitId): Commit
  {
    id.snapshot
  }

  /** The commit tracks a file of that name. */
  predicate ContainsFile(c: Commit, fileName: FileName)
  {
    fileName in c.files
  }

  /** The blob id the commit records for the file (`None` when it does not track it). */
  function GetBlobID(c: Commit, fileName: FileName): Option<BlobId>
  {
    if fileName in c.files then Some(c.files[fileName]) else None
  }

  /** `GetBlobID` finds a blob exactly for the files `ContainsFile` reports. */
  lemma BlobIDIffContainsFile(c: Commit, fileName: FileName)
    ensures GetBlobID(c, fileName).Some? <==> ContainsFile(c, fileName)
    ensures ContainsFile(c, fileName) ==> GetBlobID(c, fileName).value == c.files[fileName]
  {
  }

  /** Equal fields give equal ids, and (the hash being collision-free) only equal fields do. */
  lemma CommitIDDeterministic(a: Commit, b: Commit)
    ensures GetCommitID(a) == GetCommitID(b) <==> a == b
    ensures Load(GetCommitID(a)) == a
  {
  }
}
