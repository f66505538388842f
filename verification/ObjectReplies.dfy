/** What the chunkd store answers, over every run of its volume: to deletes, creates and gets, by what stands at
    the path (chunkd/be-fs.c). */
module ObjectReplies {
  import opened Bytes
  import opened ObjectFile
  import opened ObjectStore
  import opened ObjectHistory

  /** The answer to operation k of a run. */
  ghost function Answer(sha: Hash, ops: seq<Op>, k: nat): Reply
    requires RunOk(ops) && k < |ops|
  {
    ReplyCount(sha, ops, k);
    Run(sha, ops).1[k]
  }

  lemma ReplyCount(sha: Hash, ops: seq<Op>, k: nat)
    requires RunOk(ops) && k < |ops|
    ensures |Run(sha, ops).1| == |ops| && Run(sha, ops).1[k] == MapStep(sha, At(sha, ops, k), ops[k]).1
  {
    hide Run, MapRun, MapStep, Represents;
    RunRefines(sha, ops);
    Replies(sha, ops, k);
  }

  /** The path has a name on the volume before operation k. */
  ghost predicate Named(sha: Hash, ops: seq<Op>, k: nat, path: Path)
    requires RunOk(ops) && k <= |ops|
  {
    path in Run(sha, ops[..k]).0.disk.names
  }

  /** A name stands for what was made and not taken away since. */
  lemma NamedIff(sha: Hash, ops: seq<Op>, k: nat, path: Path)
    requires RunOk(ops) && k <= |ops|
    ensures Named(sha, ops, k, path) <==> Standing(sha, ops, k, path)
    ensures Named(sha, ops, k, path) <==> path in At(sha, ops, k).slots
  {
    RunRefines(sha, ops[..k]);
    SameNames(sha, Run(sha, ops[..k]).0, MapRun(sha, ops[..k]).0);
    hide Run, MapRun, Represents, Standing;
    PresentIff(sha, ops, k, path);
  }

  lemma SameNames(sha: Hash, s: Store, a: Objects)
    requires Represents(sha, s, a)
    ensures s.disk.names.Keys == a.slots.Keys
  {
  }

  // ---------- Deletes ----------

  lemma DeleteReplies(sha: Hash, a: Objects, user: bytes, path: Path)
    ensures var (a', r) := MapStep(sha, a, Delete(user, path));
      && (r == Status(Success) <==> path in a.slots && path !in a'.slots)
      && (r == Status(InvalidKey) <==> !KeyValid(path.1))
      && (KeyValid(path.1) && path.0 != 0 ==> (r == Status(NoSuchKey) <==> path !in a.slots))
  {
  }

  /** In every run a delete is answered with success if and only if the path has a name before it and none
      after it; with a bad key exactly for a bad key; and, key and table being good, with no such key exactly
      when nothing made at the path is left. */
  lemma DeleteAnswered(sha: Hash, ops: seq<Op>, k: nat)
    requires RunOk(ops) && k < |ops| && ops[k].Delete?
    ensures Answer(sha, ops, k) == Status(Success) <==>
      Named(sha, ops, k, ops[k].path) && !Named(sha, ops, k + 1, ops[k].path)
    ensures Answer(sha, ops, k) == Status(InvalidKey) <==> !KeyValid(ops[k].path.1)
    ensures KeyValid(ops[k].path.1) && ops[k].path.0 != 0 ==>
      (Answer(sha, ops, k) == Status(NoSuchKey) <==> !Standing(sha, ops, k, ops[k].path))
  {
    ReplyCount(sha, ops, k);
    NamedIff(sha, ops, k, ops[k].path);
    NamedIff(sha, ops, k + 1, ops[k].path);
    AtNext(sha, ops, k);
    DeleteReplies(sha, At(sha, ops, k), ops[k].user, ops[k].path);
    hide At, Run, MapStep, Named, Standing, KeyValid;
  }

  /** A delete of an object that stands succeeds for its owner and is denied to everyone else. */
  lemma DeleteOfObject(sha: Hash, ops: seq<Op>, k: nat, o: Obj)
    requires RunOk(ops) && k < |ops| && ops[k].Delete? && Committed(sha, ops, k, ops[k].path, o)
    ensures Answer(sha, ops, k) == Status(if ops[k].user == o.owner then Success else AccessDenied)
  {
    ReplyCount(sha, ops, k);
    StoredIff(sha, ops, k, ops[k].path, o);
    RunProper(sha, ops[..k]);
    hide Run, Committed;
  }

  /** What an object in use left at its path is deleted exactly for the user its header shows: for none before its
      commit, and after a failed one for the user that the written part of the owner spells. */
  lemma DeleteOfHeld(sha: Hash, ops: seq<Op>, k: nat, w: nat)
    requires RunOk(ops) && k < |ops| && ops[k].Delete? && Linked(At(sha, ops, k), w)
    requires At(sha, ops, k).writers[w].path == ops[k].path
    ensures var wr := At(sha, ops, k).writers[w];
      Answer(sha, ops, k) == Status(
        if wr.end.Going? || !HeaderSeen(wr.data, wr.end.n) then InternalError
        else if OwnerSeen(wr.end.user, wr.end.n) != ops[k].user then AccessDenied
        else Success)
  {
    ReplyCount(sha, ops, k);
    RunProper(sha, ops[..k]);
    hide Run, OwnerSeen;
  }

  // ---------- Creates ----------

  lemma NewReplies(sha: Hash, a: Objects, w: nat, path: Path, size: nat)
    ensures var (a', r) := MapStep(sha, a, New(w, path, size));
      w !in a.writers ==>
        && (r == Status(InvalidKey) <==> !KeyValid(path.1))
        && (r == Status(KeyExists) <==> KeyValid(path.1) && path.0 != 0 && path in a.slots)
        && (r == Status(Success) <==> path !in a.slots && path in a'.slots)
        && (r == Status(Success) <==> KeyValid(path.1) && path.0 != 0 && path !in a.slots)
  {
  }

  /** In every run a create is told that the key exists if and only if, key and table being good, something
      made at the path is left; it succeeds exactly when nothing is, and then the path has a name. */
  lemma NewAnswered(sha: Hash, ops: seq<Op>, k: nat)
    requires RunOk(ops) && k < |ops| && ops[k].New? && ops[k].w !in At(sha, ops, k).writers
    ensures var path, good := ops[k].path, KeyValid(ops[k].path.1) && ops[k].path.0 != 0;
      && (Answer(sha, ops, k) == Status(InvalidKey) <==> !KeyValid(path.1))
      && (Answer(sha, ops, k) == Status(KeyExists) <==> good && Standing(sha, ops, k, path))
      && (Answer(sha, ops, k) == Status(Success) <==> good && !Standing(sha, ops, k, path))
      && (Answer(sha, ops, k) == Status(Success) <==> !Named(sha, ops, k, path) && Named(sha, ops, k + 1, path))
  {
    ReplyCount(sha, ops, k);
    NamedIff(sha, ops, k, ops[k].path);
    NamedIff(sha, ops, k + 1, ops[k].path);
    AtNext(sha, ops, k);
    NewReplies(sha, At(sha, ops, k), ops[k].w, ops[k].path, ops[k].size);
    hide At, Run, MapStep, Named, Standing, KeyValid;
  }

  // ---------- Gets ----------

  lemma GetReplies(sha: Hash, a: Objects, user: bytes, path: Path)
    ensures var r := MapStep(sha, a, Get(user, path)).1;
      && (r == Status(InvalidKey) <==> !KeyValid(path.1))
      && (KeyValid(path.1) && path.0 != 0 ==> (r == Status(NoSuchKey) <==> path !in a.slots))
  {
  }

  /** A get is refused for a bad key exactly for a bad key and, key and table being good, with no such key exactly
      when nothing made at the path is left. */
  lemma GetAnswered(sha: Hash, ops: seq<Op>, k: nat)
    requires RunOk(ops) && k < |ops| && ops[k].Get?
    ensures Answer(sha, ops, k) == Status(InvalidKey) <==> !KeyValid(ops[k].path.1)
    ensures KeyValid(ops[k].path.1) && ops[k].path.0 != 0 ==>
      (Answer(sha, ops, k) == Status(NoSuchKey) <==> !Standing(sha, ops, k, ops[k].path))
  {
    ReplyCount(sha, ops, k);
    NamedIff(sha, ops, k, ops[k].path);
    GetReplies(sha, At(sha, ops, k), ops[k].user, ops[k].path);
    hide At, Run, MapStep, Named, Standing, KeyValid;
  }

  /** A get of an object that stands shows it to its owner, with its hash, and is denied to everyone else. */
  lemma GetOfObject(sha: Hash, ops: seq<Op>, k: nat, o: Obj)
    requires RunOk(ops) && k < |ops| && ops[k].Get? && Committed(sha, ops, k, ops[k].path, o)
    ensures Answer(sha, ops, k) ==
      if ops[k].user == o.owner then Found(o.data, sha(o.data)) else Status(AccessDenied)
  {
    ReplyCount(sha, ops, k);
    StoredIff(sha, ops, k, ops[k].path, o);
    RunProper(sha, ops[..k]);
    hide Run, Committed;
  }

  // ---------- Writes, commits and frees ----------

  /** Of an object in use that has not been committed yet: a commit is answered with success exactly when all of
      the announced bytes were written and the system takes the front, and else with an internal error. */
  lemma CommitAnswers(sha: Hash, ops: seq<Op>, k: nat)
    requires RunOk(ops) && k < |ops| && ops[k].Commit? && MapUsable(At(sha, ops, k), ops[k].w)
    ensures var wr := At(sha, ops, k).writers[ops[k].w];
      Answer(sha, ops, k) ==
        Status(if |wr.data| == wr.size && ops[k].io.AllWritten? then Success else InternalError)
  {
    ReplyCount(sha, ops, k);
    hide Run, At;
  }

  /** The bytes object w has been given before operation n, by the writes since operation k. */
  function Given(ops: seq<Op>, k: nat, n: nat, w: nat): bytes
    requires k <= n <= |ops|
    decreases n - k
  {
    if n == k then []
    else Given(ops, k, n - 1, w) + if ops[n - 1].Write? && ops[n - 1].w == w then ops[n - 1].chunk else []
  }

  /** No write of the object since operation k goes beyond one block after its checksum table. */
  ghost predicate Fitting(ops: seq<Op>, k: nat, n: nat, w: nat, size: nat)
    requires k <= n <= |ops|
  {
    forall m | k < m <= n :: |Given(ops, k, m, w)| <= (BlkCount(size) + 1) * BLK
  }

  lemma DataStep(sha: Hash, a: Objects, op: Op, w: nat)
    requires MapUsable(a, w) && MapUsable(MapStep(sha, a, op).0, w)
    ensures var wr, wr' := a.writers[w], MapStep(sha, a, op).0.writers[w];
      && wr'.path == wr.path && wr'.size == wr.size
      && wr'.data == wr.data + if op.Write? && op.w == w && Room(wr, op.chunk) then op.chunk else []
  {
    hide Refusal;
  }

  lemma UsableBefore(sha: Hash, a: Objects, op: Op, w: nat)
    requires w in a.writers && MapUsable(MapStep(sha, a, op).0, w)
    ensures MapUsable(a, w)
  {
    hide Refusal;
  }

  /** An object in use and not committed yet holds exactly the bytes written to it since it was made, in order. */
  lemma {:induction false} DataIs(sha: Hash, ops: seq<Op>, k: nat, n: nat, w: nat)
    requires k < n <= |ops| && Began(sha, ops, k, n, w) && MapUsable(At(sha, ops, n), w)
    requires Fitting(ops, k, n, w, ops[k].size)
    ensures At(sha, ops, n).writers[w].data == Given(ops, k, n, w)
    ensures At(sha, ops, n).writers[w].size == ops[k].size
    decreases n
  {
    AtNext(sha, ops, n - 1);
    if n == k + 1 {
      assert Given(ops, k, n, w) == [];
      hide Refusal;
    } else {
      assert Began(sha, ops, k, n - 1, w);
      hide At, MapStep, Makes;
      UsableBefore(sha, At(sha, ops, n - 1), ops[n - 1], w);
      DataIs(sha, ops, k, n - 1, w);
      DataStep(sha, At(sha, ops, n - 1), ops[n - 1], w);
      assert |Given(ops, k, n, w)| <= (BlkCount(ops[k].size) + 1) * BLK;
    }
  }
}
