/**
 The repository commands as functions from the state before a command to the
 state after it and the outcome it reports. Each function follows the
 load-mutate-save steps of its command; its contract says what the command
 promises.
 */
module VcsTransitions {
  import opened VcsState

  /** `init`: create an empty store, index and log, unless the repository already exists. */
  function Init(s: RepoState): (t: Transition)
    requires WellFormed(s)
    ensures WellFormed(t.state)
    ensures s.initialized ==> t == Transition(s, AlreadyInitialized)
    ensures !s.initialized ==>
      && t.outcome == Initialized
      && t.state.initialized
      && t.state.objects == map[] && t.state.index == map[] && t.state.commits == []
      && t.state.worktree == s.worktree
  {
    if s.initialized then Transition(s, AlreadyInitialized)
    else Transition(s.(initialized := true, objects := map[], index := map[], commits := []),
                    Initialized)
  }

  /**
   `add path`: store the file's content under its digest unless a blob with
   that digest already exists, then stage the path with that digest.
   */
  function Add(s: RepoState, hash: Bytes -> Digest, path: Path): (t: Transition)
    requires WellFormed(s)
    ensures WellFormed(t.state)
    ensures ContentAddressed(s, hash) ==> ContentAddressed(t.state, hash)
    ensures t.state.initialized == s.initialized
    ensures t.state.commits == s.commits && t.state.worktree == s.worktree
    ensures Extends(s.objects, t.state.objects)
    ensures path !in s.worktree ==> t == Transition(s, FileMissing)
    ensures path in s.worktree && !s.initialized ==> t == Transition(s, ObjectWriteFailed)
    ensures path in s.worktree && s.initialized ==>
      var digest := hash(s.worktree[path]);
      && t.outcome == Added
      && t.state.objects.Keys == s.objects.Keys + {digest}
      && (digest !in s.objects ==> t.state.objects[digest] == s.worktree[path])
      && path in t.state.index && t.state.index[path] == digest
      && SameExcept(s.index, t.state.index, path)
  {
    if path !in s.worktree then Transition(s, FileMissing)
    else
      var content := s.worktree[path];
      var digest := hash(content);
      // The blob is written into the objects directory, which is absent before `init`.
      if digest !in s.objects && !s.initialized then Transition(s, ObjectWriteFailed)
      else
        var objects := if digest in s.objects then s.objects else s.objects[digest := content];
        var index := LoadIndex(s)[path := digest];
        Transition(s.(objects := objects, index := index), Added)
  }

  /**
   `commit message`: refuse an empty index; otherwise append one record
   holding a copy of the index, then empty the index.
   */
  function Commit(s: RepoState, timestamp: string, message: string): (t: Transition)
    requires WellFormed(s)
    ensures WellFormed(t.state)
    ensures t.state.initialized == s.initialized
    ensures t.state.objects == s.objects && t.state.worktree == s.worktree
    ensures s.index == map[] ==> t == Transition(s, NoChanges)
    ensures s.index != map[] ==>
      && t.outcome == Committed(|s.commits|)
      && |t.state.commits| == |s.commits| + 1
      && t.state.commits[..|s.commits|] == s.commits
      && t.state.commits[|s.commits|] == CommitRecord(timestamp, message, s.index)
      && t.state.index == map[]
  {
    var index := LoadIndex(s);
    if index == map[] then Transition(s, NoChanges)
    else
      var commits := LoadCommits(s) + [CommitRecord(timestamp, message, index)];
      Transition(s.(commits := commits, index := map[]), Committed(|commits| - 1))
  }

  /** The working tree after writing every file of `snapshot` with its stored blob. */
  function Restored(worktree: map<Path, Bytes>, objects: map<Digest, Bytes>, snapshot: Snapshot)
    : (after: map<Path, Bytes>)
    requires Stored(snapshot, objects)
    ensures RestoresSnapshot(worktree, objects, snapshot, after)
  {
    map p | p in worktree.Keys + snapshot.Keys ::
      if p in snapshot then objects[snapshot[p]] else worktree[p]
  }

  /**
   `checkout number`: refuse a number outside the log; otherwise restore the
   files of that commit's snapshot. Only the working tree changes.
   */
  function Checkout(s: RepoState, number: int): (t: Transition)
    requires WellFormed(s)
    ensures WellFormed(t.state)
    ensures t.state.(worktree := s.worktree) == s
    ensures (number < 0 || number >= |s.commits|) ==> t == Transition(s, InvalidCommit)
    ensures 0 <= number < |s.commits| ==>
      && t.outcome == CheckedOut
      && RestoresSnapshot(s.worktree, s.objects, s.commits[number].snapshot, t.state.worktree)
  {
    var commits := LoadCommits(s);
    if number < 0 || number >= |commits| then Transition(s, InvalidCommit)
    else
      var snapshot := commits[number].snapshot;
      Transition(s.(worktree := Restored(s.worktree, s.objects, snapshot)), CheckedOut)
  }

  /**
   A command of the repository, or a change the user makes to the working
   tree between commands.
   */
  datatype Op =
    | InitRepo
    | AddFile(path: Path)
    | CommitIndex(timestamp: string, message: string)
    | CheckoutCommit(number: int)
    | EditFile(path: Path, content: Bytes)
    | DeleteFile(path: Path)

  function Step(s: RepoState, hash: Bytes -> Digest, op: Op): (r: RepoState)
    requires Consistent(s, hash)
    ensures Consistent(r, hash)
    ensures s.initialized ==> r.initialized
    ensures s.commits <= r.commits
    ensures Extends(s.objects, r.objects)
  {
    match op
    case InitRepo => Init(s).state
    case AddFile(path) => Add(s, hash, path).state
    case CommitIndex(timestamp, message) => Commit(s, timestamp, message).state
    case CheckoutCommit(number) => Checkout(s, number).state
    case EditFile(path, content) => s.(worktree := s.worktree[path := content])
    case DeleteFile(path) => s.(worktree := s.worktree - {path})
  }

  /** The state after running `ops` one after another from `s`. */
  function Run(s: RepoState, hash: Bytes -> Digest, ops: seq<Op>): (r: RepoState)
    requires Consistent(s, hash)
    ensures Consistent(r, hash)
    decreases |ops|
  {
    if ops == [] then s else Run(Step(s, hash, ops[0]), hash, ops[1..])
  }
}
