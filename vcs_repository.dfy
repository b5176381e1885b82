/**
 The repository as an object whose fields are the on-disk state. Each command
 loads what it needs, changes it and saves it back, as the program does; each
 method's contract ties the new state to the transition function of its
 command.
 */
module VcsRepository {
  import opened VcsState
  import VcsTransitions

  class Repository {
    /** The content digest (SHA-1 in the program), fixed for the repository's life. */
    const hash: Bytes -> Digest
    /** Whether the repository directory exists. */
    var initialized: bool
    /** The blobs under the objects directory, by digest. */
    var objects: map<Digest, Bytes>
    /** The persisted staging index. */
    var index: Index
    /** The persisted commit log. */
    var commits: seq<CommitRecord>
    /** The files of the working tree. */
    var worktree: map<Path, Bytes>

    function View(): RepoState
      reads this
    {
      RepoState(initialized, objects, index, commits, worktree)
    }

    predicate Valid()
      reads this
    {
      Consistent(View(), hash)
    }

    /** A working tree holding `files` and no repository yet. */
    constructor (hash: Bytes -> Digest, files: map<Path, Bytes>)
      ensures Valid() && this.hash == hash
      ensures !initialized && objects == map[] && index == map[] && commits == []
      ensures worktree == files
    {
      this.hash := hash;
      initialized := false;
      objects := map[];
      index := map[];
      commits := [];
      worktree := files;
    }

    /** The index as loaded from its file; a missing file loads as the empty index. */
    function LoadIndex(): (staged: Index)
      reads this
      ensures !initialized ==> staged == map[]
      ensures Valid() ==> staged == index
    {
      VcsState.LoadIndex(View())
    }

    /** The log as loaded from its file; a missing file loads as the empty log. */
    function LoadCommits(): (log: seq<CommitRecord>)
      reads this
      ensures !initialized ==> log == []
      ensures Valid() ==> log == commits
    {
      VcsState.LoadCommits(View())
    }

    /** Overwrite the index file with `staged`. */
    method SaveIndex(staged: Index)
      requires initialized
      modifies this`index
      ensures index == staged
    {
      index := staged;
    }

    method Init() returns (outcome: Outcome)
      requires Valid()
      modifies this
      ensures Valid()
      ensures Transition(View(), outcome) == VcsTransitions.Init(old(View()))
      ensures old(initialized) ==> outcome == AlreadyInitialized && View() == old(View())
    {
      if initialized {
        return AlreadyInitialized;
      }
      initialized := true;
      objects := map[];
      commits := [];
      index := map[];
      return Initialized;
    }

    method Add(path: Path) returns (outcome: Outcome)
      requires Valid()
      modifies this
      ensures Valid()
      ensures Transition(View(), outcome) == VcsTransitions.Add(old(View()), hash, path)
      ensures Extends(old(objects), objects)
      ensures commits == old(commits) && worktree == old(worktree)
      ensures outcome == Added <==> path in worktree && initialized
      ensures outcome == Added ==> path in index && index[path] == hash(worktree[path])
      ensures outcome != Added ==> View() == old(View())
    {
      if path !in worktree {
        return FileMissing;
      }
      var content := worktree[path];
      var digest := hash(content);
      if digest !in objects {
        if !initialized {
          // The objects directory does not exist, so writing the blob fails.
          return ObjectWriteFailed;
        }
        objects := objects[digest := content];
      }
      var staged := LoadIndex();
      staged := staged[path := digest];
      SaveIndex(staged);
      return Added;
    }

    method Commit(timestamp: string, message: string) returns (outcome: Outcome)
      requires Valid()
      modifies this
      ensures Valid()
      ensures Transition(View(), outcome) == VcsTransitions.Commit(old(View()), timestamp, message)
      ensures old(index) == map[] ==> outcome == NoChanges && View() == old(View())
      ensures old(index) != map[] ==>
        && outcome == Committed(|old(commits)|)
        && commits == old(commits) + [CommitRecord(timestamp, message, old(index))]
        && index == map[]
      ensures objects == old(objects) && worktree == old(worktree)
    {
      var staged := LoadIndex();
      if staged == map[] {
        return NoChanges;
      }
      var log := LoadCommits();
      log := log + [CommitRecord(timestamp, message, staged)];
      commits := log;
      SaveIndex(map[]);
      return Committed(|log| - 1);
    }

    method Checkout(number: int) returns (outcome: Outcome)
      requires Valid()
      modifies this
      ensures Valid()
      ensures Transition(View(), outcome) == VcsTransitions.Checkout(old(View()), number)
      ensures (number < 0 || number >= |commits|) ==> outcome == InvalidCommit && View() == old(View())
      ensures 0 <= number < |commits| ==>
        && outcome == CheckedOut
        && RestoresSnapshot(old(worktree), objects, commits[number].snapshot, worktree)
      ensures initialized == old(initialized) && objects == old(objects)
      ensures index == old(index) && commits == old(commits)
    {
      var log := LoadCommits();
      if number < 0 || number >= |log| {
        return InvalidCommit;
      }
      var snapshot := log[number].snapshot;
      var pending := snapshot.Keys;
      while pending != {}
        invariant pending <= snapshot.Keys && Stored(snapshot, objects)
        invariant worktree.Keys == old(worktree).Keys + (snapshot.Keys - pending)
        invariant forall p :: p in snapshot && p !in pending ==> worktree[p] == objects[snapshot[p]]
        invariant forall p :: p in old(worktree) && (p !in snapshot || p in pending) ==>
                    worktree[p] == old(worktree)[p]
        invariant View() == old(View()).(worktree := worktree)
        decreases pending
      {
        var path :| path in pending;
        var content := objects[snapshot[path]];
        worktree := worktree[path := content];
        pending := pending - {path};
      }
      assert worktree == VcsTransitions.Restored(old(worktree), objects, snapshot);
      return CheckedOut;
    }

    /**
     The history, newest first: one entry per commit, with its number. The
     i-th entry is commit |log| - i - 1, which VcsProperties.LogNumbering
     shows is forced by the other clauses.
     */
    method Log() returns (entries: seq<LogEntry>)
      ensures |entries| == |LoadCommits()|
      ensures forall i :: 0 <= i < |entries| ==>
        var n := entries[i].number;
        && n < |LoadCommits()|
        && entries[i].timestamp == LoadCommits()[n].timestamp
        && entries[i].message == LoadCommits()[n].message
      ensures forall i, j :: 0 <= i < j < |entries| ==> entries[i].number > entries[j].number
      ensures forall i :: 0 <= i < |entries| ==> entries[i].number == |LoadCommits()| - i - 1
    {
      var log := LoadCommits();
      entries := [];
      var i := 0;
      while i < |log|
        invariant 0 <= i <= |log|
        invariant |entries| == i
        invariant forall k :: 0 <= k < i ==> entries[k].number == |log| - k - 1
        invariant forall k :: 0 <= k < i ==>
          entries[k].timestamp == log[|log| - k - 1].timestamp &&
          entries[k].message == log[|log| - k - 1].message
      {
        var record := log[|log| - i - 1];
        entries := entries + [LogEntry(|log| - i - 1, record.timestamp, record.message)];
        i := i + 1;
      }
    }

    /** The staged paths, each once; empty exactly when nothing is staged. */
    method Status() returns (paths: seq<Path>)
      ensures forall p :: p in paths <==> p in LoadIndex()
      ensures forall i, j :: 0 <= i < j < |paths| ==> paths[i] != paths[j]
      ensures paths == [] <==> LoadIndex() == map[]
    {
      var staged := LoadIndex();
      paths := [];
      var pending := staged.Keys;
      while pending != {}
        invariant pending <= staged.Keys
        invariant forall p :: p in paths ==> p in staged && p !in pending
        invariant forall p :: p in staged ==> p in pending || p in paths
        invariant forall i, j :: 0 <= i < j < |paths| ==> paths[i] != paths[j]
        decreases pending
      {
        var path :| path in pending;
        paths := paths + [path];
        pending := pending - {path};
      }
      if staged != map[] {
        var path :| path in staged;
        assert path in paths;
      }
      if paths != [] {
        assert paths[0] in paths;
      }
    }
  }

  /**
   A user session: init, write and add "a.txt", commit, overwrite and add it
   again, commit, then check out both commits. What each step yields follows
   from the methods' contracts alone.
   */
  method TwoCommitSession(hash: Bytes -> Digest, t0: string, t1: string)
    requires CollisionFree(hash)
  {
    var hello: Bytes := [0x68, 0x65, 0x6c, 0x6c, 0x6f];
    var world: Bytes := [0x77, 0x6f, 0x72, 0x6c, 0x64];
    var repo := new Repository(hash, map[]);
    var outcome := repo.Init();
    assert outcome == Initialized;
    outcome := repo.Add("a.txt");
    assert outcome == FileMissing;
    repo.worktree := repo.worktree["a.txt" := hello];
    outcome := repo.Add("a.txt");
    assert outcome == Added;
    outcome := repo.Commit(t0, "first");
    assert outcome == Committed(0);
    outcome := repo.Commit(t0, "again");
    assert outcome == NoChanges;
    repo.worktree := repo.worktree["a.txt" := world];
    outcome := repo.Add("a.txt");
    outcome := repo.Commit(t1, "second");
    assert outcome == Committed(1);
    assert |repo.commits| == 2 && repo.commits[1].message == "second";
    outcome := repo.Checkout(2);
    assert outcome == InvalidCommit;
    outcome := repo.Checkout(0);
    assert hash(repo.objects[hash(hello)]) == hash(hello);
    assert repo.worktree["a.txt"] == hello;
    outcome := repo.Checkout(1);
    assert hash(repo.objects[hash(world)]) == hash(world);
    assert repo.worktree["a.txt"] == world;
  }
}
