# A minimal version-control engine, modelled in Dafny

The program is a small local version-control tool (`code.py`). Its state has
four parts. The project models each part and proves what the commands promise
about it:

- the **object store**: blobs of bytes keyed by their content digest, written
  only when the digest is absent;
- the **staging index**: a map from path to the digest of the content last
  added for that path;
- the **commit log**: an append-only sequence of records
  `{timestamp, message, snapshot}`, where a commit's number is its position;
- the **working tree**: the user's files, which `add` reads and `checkout`
  overwrites.

Files:

- `vcs_state.dfy` (module `VcsState`): the types (`Bytes`, `Digest`, `Index`,
  `Snapshot`, `CommitRecord`, `RepoState`, `Outcome`) and the invariants.
  `WellFormed` says that nothing exists before `init`, that every digest in the
  index and in every snapshot names a stored blob, and that no snapshot is
  empty. `ContentAddressed` says that every blob is stored under its own digest.
- `vcs_transitions.dfy` (module `VcsTransitions`): one function per command,
  from the old state to the new state and the reported outcome. Each follows
  the load-mutate-save steps of its command. Also `Step` and `Run`, which run
  a sequence of commands mixed with user edits to the working tree.
- `vcs_properties.dfy` (module `VcsProperties`): lemmas over whole runs. The
  history and the store only grow. Checking out a commit writes back the content
  that was added before the commit, whatever happened since. The example
  two-commit history is worked through. The log numbering is pinned down.
- `vcs_repository.dfy` (module `VcsRepository`): class `Repository`. Its fields
  are the repository's persisted state. Its methods are the commands written
  imperatively. `Checkout` is a loop that overwrites one working-tree file per
  snapshot entry. Every method ensures that the new state and outcome are those
  of the matching transition function, and states its main promises directly.
  `TwoCommitSession` is a client that walks the example history through the
  methods. It has no contract of its own and no row in the table. It only
  shows that the methods' contracts are enough to derive the example, which
  `VcsProperties.TwoCommitScenario` proves on the transition functions.

`hash_content` (code.py:13-14) is not reimplemented. The digest function is a
parameter: the `hash` constant of a `Repository`, or the `hash` argument of
`Add`, `Step` and `Run`. Lemmas that need two different contents to have
different digests require `CollisionFree(hash)`. Those lemmas are
`AddStoresContent`, `RoundTrip` and `TwoCommitScenario`. The client
`TwoCommitSession` requires it too.

The commands' on-disk reads and writes become field reads and assignments.
`load_index` and `load_commits` return an empty index or log when their file is
missing (code.py:82-92). In the model, a file is missing exactly when the
repository directory is. So `LoadIndex`/`LoadCommits` return empty values
when `initialized` is false.

Where the documented design and the code differ, the model follows the code:

- The code never checks that the repository exists before a command. The model
  does what the code does without it. `commit`, `checkout`, `log` and `status`
  load an empty index or log. `add` of an existing file fails when it writes
  the blob into the absent objects directory. The model reports this as
  `ObjectWriteFailed` and changes nothing.
- The commit log itself does not refuse an empty snapshot. `commit` checks the
  index before appending (code.py:44-47).

## Model

| member | source | states |
|---|---|---|
| `VcsTransitions.Init` | code.py:16-25 | On an existing repository: nothing changes and `AlreadyInitialized` is reported. Otherwise: the store, index and log become empty, the repository exists, and the working tree is untouched. |
| `VcsTransitions.Add` | code.py:27-41 | A missing file changes nothing (`FileMissing`). A missing repository changes nothing (`ObjectWriteFailed`). Otherwise the store gains exactly the key `hash(content)`, and its blob is the content when the key was new. Existing blobs are never overwritten. The index maps the path to `hash(content)` and keeps every other entry. The log and working tree are untouched. The invariants are preserved. |
| `VcsTransitions.Commit` | code.py:43-58 | An empty index changes nothing (`NoChanges`). Otherwise exactly one record is appended. Its snapshot is the old index and its message is the one given. Earlier records are unchanged. The outcome carries the record's number, which is the old log length. The index becomes empty. The store and working tree are untouched. |
| `VcsTransitions.Restored` | code.py:73-79 | Each file of the snapshot is written with its stored blob. Every other file keeps its content. No file is removed. |
| `VcsTransitions.Checkout` | code.py:68-80 | A number below 0 or at least the log length changes nothing (`InvalidCommit`). Otherwise the working tree is restored from that commit's snapshot. Only the working tree changes. |
| `VcsTransitions.Step` | code.py:16-80 | Every command and every user edit preserves the invariants. Each keeps the repository initialized once it exists, keeps earlier records as a prefix of the log, and keeps every stored blob. |
| `VcsTransitions.Run` | code.py:16-80 | Any sequence of commands and edits ends in a state satisfying the invariants. |
| `VcsProperties.RunKeepsHistory` | code.py:48-56 | After any run, the old log is a prefix of the new one. Commit records are never changed or removed. |
| `VcsProperties.RunKeepsBlobs` | code.py:33-37 | After any run, every blob stored before is still stored with the same content. |
| `VcsProperties.CheckoutAfterAnyRun` | code.py:70-79 | After any run, checking out commit `n` writes each snapshot path with the blob its digest named when the commit was made. |
| `VcsProperties.AddStoresContent` | code.py:31-39 | With a collision-free digest, after a successful `add`, the staged digest names a blob equal to the file's bytes. |
| `VcsProperties.RoundTrip` | code.py:31-79 | Run `add p`, then `commit` (numbered with the old log length), then any commands or edits, then `checkout` of that number. The file `p` reads back the bytes it had when added. |
| `VcsProperties.AddIsIdempotent` | code.py:33-40 | Adding an unchanged file a second time equals adding it once. No new blob is stored and the same digest is staged. |
| `VcsProperties.StagingKeepsLatest` | code.py:38-40 | Add a path twice with different contents, then commit. The commit records only the digest of the latest content, and the index is empty afterwards. |
| `VcsProperties.TwoCommitScenario` | code.py:16-80 | The documented example. Start with init. Add `a.txt` holding "hello" and commit "first". Overwrite, add and commit "second". The log then holds the two records in order. Checkout 0 gives back "hello" and checkout 1 gives back "world". |
| `VcsProperties.LogNumbering` | code.py:62-63 | A listing with one entry per commit, numbers below the log length, and strictly decreasing numbers numbers its i-th entry `len - i - 1`. |
| `VcsRepository.Repository.LoadIndex` | code.py:88-92 | A missing index file loads as the empty index. Otherwise the persisted index is loaded. |
| `VcsRepository.Repository.LoadCommits` | code.py:82-86 | A missing log file loads as the empty log. Otherwise the persisted log is loaded. |
| `VcsRepository.Repository.SaveIndex` | code.py:94-96 | The persisted index is replaced by the one given. Nothing else changes. |
| `VcsRepository.Repository.Init` | code.py:16-25 | Follows `VcsTransitions.Init` and keeps the invariants. On an existing repository nothing changes. |
| `VcsRepository.Repository.Add` | code.py:27-41 | Follows `VcsTransitions.Add` and keeps the invariants. Blobs are never overwritten. `Added` is reported exactly when the file and the repository exist. Then `index[path] == hash(worktree[path])`. On any other outcome nothing changes. |
| `VcsRepository.Repository.Commit` | code.py:43-58 | Follows `VcsTransitions.Commit` and keeps the invariants. The new log is the old log plus one record holding the old index, and the index is emptied. With an empty index nothing changes. |
| `VcsRepository.Repository.Checkout` | code.py:68-80 | Follows `VcsTransitions.Checkout`. The loop over the snapshot's entries restores every snapshot file from the store and leaves other files alone. A number out of range changes nothing. The index and log are untouched. |
| `VcsRepository.Repository.Log` | code.py:60-66 | One entry per commit, newest first. Each entry holds a valid commit number with that record's timestamp and message, and the numbers strictly decrease. The number of entry `i` is `len - i - 1`, as the program prints it. |
| `VcsRepository.Repository.Status` | code.py:98-105 | Lists exactly the staged paths, each once. The list is empty exactly when nothing is staged, which is the "No files staged." case. |

## Left out

- `main` and `help` (code.py:107-147) are not modelled. They hold argument parsing, command dispatch and the `int()`/`ValueError` handling.
- The printed messages and dates are not modelled. The text layout of `log` and `status` is left out. `Log` and `Status` return what they would print, and each command returns an `Outcome` in place of its message.
- SHA-1 itself is not modelled: the digest function is a parameter. Collision-freedom is assumed only by the lemmas named above.
- The JSON encoding of the index and log files is not modelled, and neither are paths under the repository directory. Persisted state is held in fields.
- A single index or log file deleted by hand inside an existing repository is not modelled. A missing file arises only with a missing repository directory.
- The clock read `datetime.now().isoformat()` is not modelled: the timestamp is a parameter of `commit`.
- Concurrent invocations are not modelled, and neither are I/O failures other than the missing objects directory. Paths that name directories are left out, and so is adding the repository's own files: the working tree holds only user files.
- `VcsTransitions.Checkout`: requires the state invariant. A snapshot digest with no stored blob would make the program fail partway through the loop, and that case is unreachable from `init` (proved by `Run`), so its partial writes are not modelled.
- `VcsRepository.Repository.Status`: returns the staged paths in an unspecified order. The program prints them in the index's insertion order.
- `VcsRepository.Repository.Checkout`: visits the snapshot's entries in an unspecified order. Under the path-identity assumption below, each entry writes a different file, so the result does not depend on the order.
- Path strings stand for file identity: two different strings are two different files. Path normalisation, case folding and links are not modelled. On a case-insensitive file system, or with `./a.txt` beside `a.txt`, two index entries can name one file. The program then writes them in the index's insertion order (code.py:39, 74-79) and the last write wins. `RoundTrip` and `CheckoutAfterAnyRun` do not promise anything for that case.
