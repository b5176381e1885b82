/**
 Properties of the repository over whole runs of commands: the history and
 the object store only grow, and checking out a commit gives back exactly the
 content that was added before it was made.
 */
module VcsProperties {
  import opened VcsState
  import opened VcsTransitions

  /** Earlier commit records are never changed or removed by any run of commands. */
  lemma {:induction false} RunKeepsHistory(s: RepoState, hash: Bytes -> Digest, ops: seq<Op>)
    requires Consistent(s, hash)
    ensures s.commits <= Run(s, hash, ops).commits
    decreases |ops|
  {
    if ops != [] {
      RunKeepsHistory(Step(s, hash, ops[0]), hash, ops[1..]);
    }
  }

  /** No run of commands removes or overwrites a stored blob. */
  lemma {:induction false} RunKeepsBlobs(s: RepoState, hash: Bytes -> Digest, ops: seq<Op>)
    requires Consistent(s, hash)
    ensures Extends(s.objects, Run(s, hash, ops).objects)
    decreases |ops|
  {
    if ops != [] {
      var s' := Step(s, hash, ops[0]);
      RunKeepsBlobs(s', hash, ops[1..]);
      var r := Run(s', hash, ops[1..]);
      forall d | d in s.objects
        ensures d in r.objects && r.objects[d] == s.objects[d]
      {
        assert d in s'.objects && s'.objects[d] == s.objects[d];
      }
    }
  }

  /**
   Whatever happens after a commit is made, checking it out writes each file
   of its snapshot with the blob the snapshot named when the commit was made.
   */
  lemma CheckoutAfterAnyRun(s: RepoState, hash: Bytes -> Digest, ops: seq<Op>,
                            number: nat, path: Path)
    requires Consistent(s, hash)
    requires number < |s.commits| && path in s.commits[number].snapshot
    ensures var t := Checkout(Run(s, hash, ops), number);
      && t.outcome == CheckedOut
      && path in t.state.worktree
      && t.state.worktree[path] == s.objects[s.commits[number].snapshot[path]]
  {
    RunKeepsHistory(s, hash, ops);
    RunKeepsBlobs(s, hash, ops);
    var r := Run(s, hash, ops);
    assert r.commits[number] == s.commits[number];
  }

  /**
   With a collision-free digest, a successful `add` leaves the staged digest
   of the file naming a blob equal to the file's content.
   */
  lemma AddStoresContent(s: RepoState, hash: Bytes -> Digest, path: Path)
    requires Consistent(s, hash) && CollisionFree(hash)
    requires s.initialized && path in s.worktree
    ensures var t := Add(s, hash, path);
      && t.outcome == Added
      && path in t.state.index && t.state.index[path] in t.state.objects
      && t.state.objects[t.state.index[path]] == s.worktree[path]
  {
    // An existing blob under hash(content) hashes to it (ContentAddressed), so by
    // CollisionFree it is the content; Dafny finds this unaided.
  }

  /**
   The round trip: `add path`, `commit`, then any further commands or edits
   (for instance overwriting the file), then `checkout` of that commit's
   number gives back the bytes the file had when it was added.
   */
  lemma RoundTrip(s: RepoState, hash: Bytes -> Digest, path: Path,
                  timestamp: string, message: string, later: seq<Op>)
    requires Consistent(s, hash) && CollisionFree(hash)
    requires s.initialized && path in s.worktree
    ensures var added := Add(s, hash, path).state;
      var committed := Commit(added, timestamp, message);
      var t := Checkout(Run(committed.state, hash, later), |s.commits|);
      && committed.outcome == Committed(|s.commits|)
      && t.outcome == CheckedOut
      && path in t.state.worktree
      && t.state.worktree[path] == s.worktree[path]
  {
    AddStoresContent(s, hash, path);
    var added := Add(s, hash, path).state;
    var committed := Commit(added, timestamp, message).state;
    assert committed.commits[|s.commits|].snapshot == added.index;
    CheckoutAfterAnyRun(committed, hash, later, |s.commits|, path);
  }

  /**
   Adding the same unchanged file twice is the same as adding it once: the
   digest is the same and the second `add` stores no new blob.
   */
  lemma AddIsIdempotent(s: RepoState, hash: Bytes -> Digest, path: Path)
    requires WellFormed(s)
    ensures var once := Add(s, hash, path);
      Add(once.state, hash, path) == once
  {
  }

  /**
   Staging a path twice keeps only the digest of its latest content, and that
   is what the next commit records.
   */
  lemma StagingKeepsLatest(s: RepoState, hash: Bytes -> Digest, path: Path,
                           first: Bytes, second: Bytes, timestamp: string, message: string)
    requires Consistent(s, hash) && s.initialized
    ensures var r := Run(s, hash, [EditFile(path, first), AddFile(path),
                                   EditFile(path, second), AddFile(path),
                                   CommitIndex(timestamp, message)]);
      && |r.commits| == |s.commits| + 1
      && path in r.commits[|s.commits|].snapshot
      && r.commits[|s.commits|].snapshot[path] == hash(second)
      && r.index == map[]
  {
    var s1 := Step(s, hash, EditFile(path, first));
    var s2 := Step(s1, hash, AddFile(path));
    var s3 := Step(s2, hash, EditFile(path, second));
    var s4 := Step(s3, hash, AddFile(path));
    var s5 := Step(s4, hash, CommitIndex(timestamp, message));
    var ts, m := timestamp, message;
    assert s4.index[path] == hash(second);
    assert Run(s5, hash, []) == s5;
    assert Run(s4, hash, [CommitIndex(ts, m)]) == s5;
    assert Run(s3, hash, [AddFile(path), CommitIndex(ts, m)]) == s5;
    assert Run(s2, hash, [EditFile(path, second), AddFile(path), CommitIndex(ts, m)]) == s5;
    assert Run(s1, hash, [AddFile(path), EditFile(path, second), AddFile(path),
                          CommitIndex(ts, m)]) == s5;
  }

  /** The bytes of "hello" and "world". */
  const HELLO: Bytes := [0x68, 0x65, 0x6c, 0x6c, 0x6f]
  const WORLD: Bytes := [0x77, 0x6f, 0x72, 0x6c, 0x64]

  /**
   The two-commit history: init, add "a.txt" holding "hello" and commit
   "first", overwrite it with "world", add and commit "second". The log then
   holds two records in order, and checking out 0 and 1 gives back "hello"
   and "world".
   */
  lemma TwoCommitScenario(hash: Bytes -> Digest, files: map<Path, Bytes>, t0: string, t1: string)
    requires CollisionFree(hash)
    ensures var r := Run(RepoState(false, map[], map[], [], files), hash,
                         [InitRepo, EditFile("a.txt", HELLO), AddFile("a.txt"), CommitIndex(t0, "first"),
                          EditFile("a.txt", WORLD), AddFile("a.txt"), CommitIndex(t1, "second")]);
      && |r.commits| == 2
      && r.commits[0].message == "first" && r.commits[1].message == "second"
      && "a.txt" in Checkout(r, 0).state.worktree && Checkout(r, 0).state.worktree["a.txt"] == HELLO
      && "a.txt" in Checkout(r, 1).state.worktree && Checkout(r, 1).state.worktree["a.txt"] == WORLD
  {
    var a := "a.txt";
    var s0 := RepoState(false, map[], map[], [], files);
    var s1 := Step(s0, hash, InitRepo);
    var s2 := Step(s1, hash, EditFile(a, HELLO));
    var s3 := Step(s2, hash, AddFile(a));
    var s4 := Step(s3, hash, CommitIndex(t0, "first"));
    var s5 := Step(s4, hash, EditFile(a, WORLD));
    var s6 := Step(s5, hash, AddFile(a));
    var s7 := Step(s6, hash, CommitIndex(t1, "second"));
    AddStoresContent(s2, hash, a);
    AddStoresContent(s5, hash, a);
    assert s4.commits == [CommitRecord(t0, "first", s3.index)];
    assert s7.commits == s4.commits + [CommitRecord(t1, "second", s6.index)];
    assert Run(s7, hash, []) == s7;
    assert Run(s6, hash, [CommitIndex(t1, "second")]) == s7;
    assert Run(s5, hash, [AddFile(a), CommitIndex(t1, "second")]) == s7;
    assert Run(s4, hash, [EditFile(a, WORLD), AddFile(a), CommitIndex(t1, "second")]) == s7;
    assert Run(s3, hash, [CommitIndex(t0, "first"), EditFile(a, WORLD), AddFile(a),
                          CommitIndex(t1, "second")]) == s7;
    assert Run(s2, hash, [AddFile(a), CommitIndex(t0, "first"), EditFile(a, WORLD), AddFile(a),
                          CommitIndex(t1, "second")]) == s7;
    assert Run(s1, hash, [EditFile(a, HELLO), AddFile(a), CommitIndex(t0, "first"),
                          EditFile(a, WORLD), AddFile(a), CommitIndex(t1, "second")]) == s7;
    assert a in s4.commits[0].snapshot && s7.commits[0] == s4.commits[0];
    assert s7.objects[s3.index[a]] == HELLO;
  }

  /** The entries carry strictly decreasing commit numbers. */
  predicate NewestFirst(entries: seq<LogEntry>)
  {
    forall i, j :: 0 <= i < j < |entries| ==> entries[i].number > entries[j].number
  }

  lemma {:induction false} NewestFirstLowerBound(entries: seq<LogEntry>, i: nat)
    requires NewestFirst(entries) && i < |entries|
    ensures entries[i].number >= |entries| - 1 - i
    decreases |entries| - i
  {
    if i + 1 < |entries| {
      NewestFirstLowerBound(entries, i + 1);
    }
  }

  lemma {:induction false} NewestFirstUpperBound(entries: seq<LogEntry>, count: nat, i: nat)
    requires NewestFirst(entries) && i < |entries|
    requires forall k :: 0 <= k < |entries| ==> entries[k].number < count
    ensures entries[i].number <= count - 1 - i
    decreases i
  {
    if i > 0 {
      NewestFirstUpperBound(entries, count, i - 1);
    }
  }

  /**
   A listing of `count` commits that has one entry per commit, numbers below
   `count`, and strictly decreasing numbers, numbers its i-th entry
   `count - i - 1`: the newest commit first, down to commit 0, with no gap
   and no repetition.
   */
  lemma LogNumbering(entries: seq<LogEntry>, count: nat)
    requires |entries| == count && NewestFirst(entries)
    requires forall k :: 0 <= k < |entries| ==> entries[k].number < count
    ensures forall i :: 0 <= i < |entries| ==> entries[i].number == count - i - 1
  {
    forall i | 0 <= i < |entries|
      ensures entries[i].number == count - i - 1
    {
      NewestFirstLowerBound(entries, i);
      NewestFirstUpperBound(entries, count, i);
    }
  }
}
