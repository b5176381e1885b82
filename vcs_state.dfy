/**
 The persistent state of a minimal version-control repository: a
 content-addressed object store, a staging index, an append-only commit log,
 and the working tree the commands read from and write to.
 */
module VcsState {

  /** File contents, exactly as read from and written to disk. */
  type Bytes = seq<bv8>

  /** A content digest; the repository uses the hex SHA-1 of the bytes. */
  type Digest = string

  /** A working-tree-relative file path. */
  type Path = string

  /** The staging index: for each added path, the digest of its last added content. */
  type Index = map<Path, Digest>

  /** The copy of the staging index that a commit record keeps. */
  type Snapshot = map<Path, Digest>

  /** One entry of the commit log; its commit number is its position in the log. */
  datatype CommitRecord = CommitRecord(timestamp: string, message: string, snapshot: Snapshot)

  /**
   The whole repository. `initialized` says whether the repository directory
   exists; a missing index or commit file reads as empty, and in this model a
   file is missing exactly when the directory is.
   */
  datatype RepoState = RepoState(
    initialized: bool,
    objects: map<Digest, Bytes>,
    index: Index,
    commits: seq<CommitRecord>,
    worktree: map<Path, Bytes>)

  /** What a command reports back to its caller. */
  datatype Outcome =
    | Initialized | AlreadyInitialized
    | Added | FileMissing | ObjectWriteFailed
    | Committed(number: nat) | NoChanges
    | CheckedOut | InvalidCommit

  /** The state after a command together with what the command reported. */
  datatype Transition = Transition(state: RepoState, outcome: Outcome)

  /** One block of the history listing: a commit number and its record's metadata. */
  datatype LogEntry = LogEntry(number: nat, timestamp: string, message: string)

  /** The staging index as loaded from disk: empty when its file does not exist. */
  function LoadIndex(s: RepoState): Index
  {
    if s.initialized then s.index else map[]
  }

  /** The commit log as loaded from disk: empty when its file does not exist. */
  function LoadCommits(s: RepoState): seq<CommitRecord>
  {
    if s.initialized then s.commits else []
  }

  /** Every digest of `m` names a blob of the store. */
  predicate Stored(m: map<Path, Digest>, objects: map<Digest, Bytes>)
  {
    forall p :: p in m ==> m[p] in objects
  }

  /**
   The invariant of every reachable repository: nothing exists before `init`,
   every staged or committed digest has its blob in the store (so checkout
   never looks up a missing blob), and no commit has an empty snapshot.
   */
  predicate WellFormed(s: RepoState)
  {
    && (!s.initialized ==> s.objects == map[] && s.index == map[] && s.commits == [])
    && Stored(s.index, s.objects)
    && (forall i :: 0 <= i < |s.commits| ==>
          s.commits[i].snapshot != map[] && Stored(s.commits[i].snapshot, s.objects))
  }

  /** Every blob is stored under the digest of its own content. */
  predicate ContentAddressed(s: RepoState, hash: Bytes -> Digest)
  {
    forall d :: d in s.objects ==> hash(s.objects[d]) == d
  }

  predicate Consistent(s: RepoState, hash: Bytes -> Digest)
  {
    WellFormed(s) && ContentAddressed(s, hash)
  }

  /** The digest function never maps two different contents to one digest. */
  ghost predicate CollisionFree(hash: Bytes -> Digest)
  {
    forall a, b :: hash(a) == hash(b) ==> a == b
  }

  /** `objects'` holds every blob of `objects`, unchanged: blobs are write-once. */
  predicate Extends(objects: map<Digest, Bytes>, objects': map<Digest, Bytes>)
  {
    forall d :: d in objects ==> d in objects' && objects'[d] == objects[d]
  }

  /** `m'` agrees with `m` on every key other than `key`. */
  predicate SameExcept(m: Index, m': Index, key: Path)
  {
    m' - {key} == m - {key}
  }

  /**
   `after` is the working tree `before` with every file of `snapshot`
   overwritten (or created) with its stored blob, and every other file left
   as it was; nothing is deleted.
   */
  predicate RestoresSnapshot(before: map<Path, Bytes>, objects: map<Digest, Bytes>,
                             snapshot: Snapshot, after: map<Path, Bytes>)
  {
    && after.Keys == before.Keys + snapshot.Keys
    && (forall p :: p in snapshot ==> snapshot[p] in objects && after[p] == objects[snapshot[p]])
    && (forall p :: p in before && p !in snapshot ==> after[p] == before[p])
  }
}
