/** Where the objects of a chunkd store come from and what takes them away, over every run; the guard
    under which only a commit adds an object and only its owner's delete removes one; and runs outside
    the guard (chunkd/be-fs.c, chunkd/object.c). */
module ObjectHistory {
  import opened Bytes
  import opened ObjectFile
  import opened ObjectStore

  // ---------- One step ----------

  ghost predicate StoredAt(a: Objects, path: Path, o: Obj) {
    path in a.slots && a.slots[path] == Stored(o)
  }

  /** A free of an object with this path. */
  predicate Frees(a: Objects, op: Op, path: Path) {
    op.Free? && op.w in a.writers && a.writers[op.w].path == path
  }

  /** A delete that succeeds at this path. */
  predicate Deletes(a: Objects, op: Op, path: Path) {
    op.Delete? && op.path == path && Refusal(a, op.user, path, false) == Success
  }

  /** A successful commit of `o` by an object whose file still has its name. */
  predicate Commits(a: Objects, op: Op, path: Path, o: Obj) {
    && op.Commit? && MapUsable(a, op.w) && Linked(a, op.w) && a.writers[op.w].path == path
    && |a.writers[op.w].data| == a.writers[op.w].size && op.io.AllWritten?
    && o == Obj(op.user, a.writers[op.w].data)
  }

  /** Exactly which operations add an object and which take one away. */
  lemma ObjectsChange(sha: Hash, a: Objects, op: Op, path: Path, o: Obj)
    ensures var a' := MapStep(sha, a, op).0;
      && (!StoredAt(a, path, o) ==> (StoredAt(a', path, o) <==> Commits(a, op, path, o)))
      && (StoredAt(a, path, o) ==> (!StoredAt(a', path, o) <==> Deletes(a, op, path) || Frees(a, op, path)))
  {
  }

  /** A delete of a committed object succeeds for its owner only. */
  lemma DeletesOwn(a: Objects, op: Op, path: Path, o: Obj)
    requires StoredAt(a, path, o)
    ensures Deletes(a, op, path) <==>
      op.Delete? && op.path == path && op.user == o.owner && KeyValid(path.1) && path.0 != 0
  {
  }

  // ---------- The guard ----------

  /** Names are made of good keys and tables, and one held by an object in use is that object's. */
  ghost predicate Proper(a: Objects) {
    && (forall p | p in a.slots :: KeyValid(p.1) && p.0 != 0)
    && (forall p | p in a.slots && a.slots[p].Held? :: a.slots[p].w in a.writers && a.writers[a.slots[p].w].path == p)
  }

  ghost predicate AllLinked(a: Objects) {
    forall w | w in a.writers :: Linked(a, w)
  }

  /** A delete of what a failed commit left, before the object was freed. */
  predicate DeletesFailed(a: Objects, op: Op) {
    op.Delete? && op.path in a.slots && a.slots[op.path].Held? && Deletes(a, op, op.path)
  }

  lemma StepProper(sha: Hash, a: Objects, op: Op)
    requires Proper(a)
    ensures Proper(MapStep(sha, a, op).0)
  {
    hide Refusal;
  }

  /** Objects in use keep their names exactly as long as no failed one is deleted. */
  lemma StepLinks(sha: Hash, a: Objects, op: Op)
    requires Proper(a) && AllLinked(a)
    ensures AllLinked(MapStep(sha, a, op).0) <==> !DeletesFailed(a, op)
  {
    hide Refusal;
    if DeletesFailed(a, op) {
      var w := a.slots[op.path].w;
      assert w in a.writers && !Linked(MapStep(sha, a, op).0, w);
    } else {
      forall w | w in MapStep(sha, a, op).0.writers
        ensures Linked(MapStep(sha, a, op).0, w)
      {
        assert w in a.writers ==> Linked(a, w);
        assert (op.Commit? || op.Free?) && op.w in a.writers ==> Linked(a, op.w);
      }
    }
  }

  /** While they do, only the owner's delete takes an object away, and a successful commit adds one. */
  lemma LinkedChange(sha: Hash, a: Objects, op: Op, path: Path, o: Obj)
    requires AllLinked(a)
    ensures var (a', r) := MapStep(sha, a, op);
      && (StoredAt(a, path, o) ==> (!StoredAt(a', path, o) <==> Deletes(a, op, path)))
      && (op.Commit? && r == Status(Success) ==>
            op.w in a.writers && StoredAt(a', a.writers[op.w].path, Obj(op.user, a.writers[op.w].data)))
  {
    ObjectsChange(sha, a, op, path, o);
    if op.Free? && op.w in a.writers {
      assert Linked(a, op.w);
    }
    if op.Commit? && op.w in a.writers {
      assert Linked(a, op.w);
    }
  }

  /** No operation of the run deletes what a failed commit left. */
  ghost predicate Guarded(sha: Hash, ops: seq<Op>) {
    forall k | 0 <= k < |ops| :: !DeletesFailed(MapRun(sha, ops[..k]).0, ops[k])
  }

  lemma {:induction false} RunProper(sha: Hash, ops: seq<Op>)
    ensures Proper(MapRun(sha, ops).0)
  {
    hide MapStep;
    if ops != [] {
      var n := |ops| - 1;
      RunProper(sha, ops[..n]);
      StepProper(sha, MapRun(sha, ops[..n]).0, ops[n]);
    }
  }

  lemma {:induction false} RunLinks(sha: Hash, ops: seq<Op>)
    requires Guarded(sha, ops)
    ensures AllLinked(MapRun(sha, ops).0)
  {
    hide MapStep, DeletesFailed;
    if ops != [] {
      var n := |ops| - 1;
      assert forall k | 0 <= k < n :: ops[..n][..k] == ops[..k] && ops[..n][k] == ops[k];
      RunLinks(sha, ops[..n]);
      RunProper(sha, ops[..n]);
      StepLinks(sha, MapRun(sha, ops[..n]).0, ops[n]);
    }
  }

  // ---------- What a path holds ----------

  /** The state before operation m. */
  function At(sha: Hash, ops: seq<Op>, m: nat): Objects
    requires m <= |ops|
  {
    MapRun(sha, ops[..m]).0
  }

  lemma AtNext(sha: Hash, ops: seq<Op>, m: nat)
    requires m < |ops|
    ensures At(sha, ops, m + 1) == MapStep(sha, At(sha, ops, m), ops[m]).0
    ensures At(sha, ops, 0) == Objects(map[], map[])
    ensures At(sha, ops, |ops|) == MapRun(sha, ops).0
  {
    hide MapStep;
    assert ops[..m + 1][..m] == ops[..m] && ops[..|ops|] == ops;
  }

  /** The path is made: a create there that succeeds. */
  predicate Makes(a: Objects, op: Op, path: Path) {
    op.New? && op.path == path && MapNew(a, op.w, path, op.size).1 == Status(Success)
  }

  /** The name is taken away from whatever has it. */
  predicate Takes(a: Objects, op: Op, path: Path) {
    path in a.slots && (Deletes(a, op, path) || Frees(a, op, path))
  }

  lemma SlotStep(sha: Hash, a: Objects, op: Op, path: Path)
    ensures path in MapStep(sha, a, op).0.slots <==> (path in a.slots && !Takes(a, op, path)) || Makes(a, op, path)
  {
    hide Refusal;
  }

  /** Operation m made the path and nothing took it away before operation n. */
  ghost predicate MadeSince(sha: Hash, ops: seq<Op>, m: nat, n: nat, path: Path)
    requires m < n <= |ops|
  {
    && Makes(At(sha, ops, m), ops[m], path)
    && forall k | m < k < n :: !Takes(At(sha, ops, k), ops[k], path)
  }

  ghost predicate Standing(sha: Hash, ops: seq<Op>, n: nat, path: Path)
    requires n <= |ops|
  {
    exists m | 0 <= m < n :: MadeSince(sha, ops, m, n, path)
  }

  lemma StandingStep(sha: Hash, ops: seq<Op>, n: nat, path: Path)
    requires 0 < n <= |ops|
    ensures Standing(sha, ops, n, path) <==>
      || Makes(At(sha, ops, n - 1), ops[n - 1], path)
      || (!Takes(At(sha, ops, n - 1), ops[n - 1], path) && Standing(sha, ops, n - 1, path))
  {
    hide At, Makes, Takes;
    var l := n - 1;
    if Standing(sha, ops, n, path) {
      var m :| 0 <= m < n && MadeSince(sha, ops, m, n, path);
      assert m < l ==> MadeSince(sha, ops, m, l, path);
    }
    if Makes(At(sha, ops, l), ops[l], path) {
      assert MadeSince(sha, ops, l, n, path);
    } else if !Takes(At(sha, ops, l), ops[l], path) && Standing(sha, ops, l, path) {
      var m :| 0 <= m < l && MadeSince(sha, ops, m, l, path);
      assert MadeSince(sha, ops, m, n, path);
    }
  }

  lemma PresentStep(sha: Hash, ops: seq<Op>, n: nat, path: Path)
    requires 0 < n <= |ops|
    ensures path in At(sha, ops, n).slots <==>
      || Makes(At(sha, ops, n - 1), ops[n - 1], path)
      || (!Takes(At(sha, ops, n - 1), ops[n - 1], path) && path in At(sha, ops, n - 1).slots)
  {
    AtNext(sha, ops, n - 1);
    hide At, MapStep, Makes, Takes;
    SlotStep(sha, At(sha, ops, n - 1), ops[n - 1], path);
  }

  /** A path holds something exactly when it was made and not taken away since. */
  lemma {:induction false} PresentIff(sha: Hash, ops: seq<Op>, n: nat, path: Path)
    requires n <= |ops|
    ensures path in At(sha, ops, n).slots <==> Standing(sha, ops, n, path)
  {
    if n > 0 {
      hide At, MapStep, Makes, Takes, Standing;
      PresentIff(sha, ops, n - 1, path);
      PresentStep(sha, ops, n, path);
      StandingStep(sha, ops, n, path);
    }
  }

  // ---------- Frees that come late ----------

  /** The object in use as `w` before operation n is the one operation k made. */
  ghost predicate Began(sha: Hash, ops: seq<Op>, k: nat, n: nat, w: nat)
    requires k < n <= |ops|
  {
    && ops[k].New? && ops[k].w == w && Makes(At(sha, ops, k), ops[k], ops[k].path)
    && forall m | k < m <= n :: w in At(sha, ops, m).writers && At(sha, ops, m).writers[w].path == ops[k].path
  }

  /** Operation m takes the path's name away by a delete, or by the free of another object. */
  predicate Unlinks(a: Objects, op: Op, path: Path, w: nat) {
    Takes(a, op, path) && (op.Free? ==> op.w != w)
  }

  lemma LinkStep(sha: Hash, a: Objects, op: Op, path: Path, w: nat)
    requires w in a.writers && a.writers[w].path == path
    requires w in MapStep(sha, a, op).0.writers && MapStep(sha, a, op).0.writers[w].path == path
    ensures Linked(MapStep(sha, a, op).0, w) <==> Linked(a, w) && !Unlinks(a, op, path, w)
  {
    hide Refusal;
  }

  lemma BeganLinked(sha: Hash, ops: seq<Op>, k: nat, w: nat)
    requires k < |ops| && Began(sha, ops, k, k + 1, w)
    ensures Linked(At(sha, ops, k + 1), w)
  {
    AtNext(sha, ops, k);
    hide At, Refusal;
  }

  lemma LinkNext(sha: Hash, ops: seq<Op>, k: nat, n: nat, w: nat)
    requires k < n < |ops| && Began(sha, ops, k, n + 1, w)
    ensures Linked(At(sha, ops, n + 1), w) <==>
      Linked(At(sha, ops, n), w) && !Unlinks(At(sha, ops, n), ops[n], ops[k].path, w)
  {
    AtNext(sha, ops, n);
    hide At, MapStep, Makes, Unlinks, Linked;
    LinkStep(sha, At(sha, ops, n), ops[n], ops[k].path, w);
  }

  lemma {:induction false} LinkedSince(sha: Hash, ops: seq<Op>, k: nat, n: nat, w: nat)
    requires k < n <= |ops| && Began(sha, ops, k, n, w)
    ensures Linked(At(sha, ops, n), w) <==>
      forall m | k < m < n :: !Unlinks(At(sha, ops, m), ops[m], ops[k].path, w)
  {
    hide At, Makes, Unlinks, Linked;
    if n == k + 1 {
      BeganLinked(sha, ops, k, w);
    } else {
      assert Began(sha, ops, k, n - 1, w);
      LinkedSince(sha, ops, k, n - 1, w);
      LinkNext(sha, ops, k, n - 1, w);
    }
  }

  /** Every object in use began somewhere. */
  lemma {:induction false} Beginning(sha: Hash, ops: seq<Op>, n: nat, w: nat) returns (k: nat)
    requires n <= |ops| && w in At(sha, ops, n).writers
    ensures k < n && Began(sha, ops, k, n, w)
  {
    if n == 0 {
      assert false;
    } else {
      AtNext(sha, ops, n - 1);
      var a, op := At(sha, ops, n - 1), ops[n - 1];
      if w in a.writers {
        k := Beginning(sha, ops, n - 1, w);
        SamePath(sha, a, op, w);
      } else {
        k := n - 1;
      }
    }
  }

  lemma SamePath(sha: Hash, a: Objects, op: Op, w: nat)
    requires w in a.writers && w in MapStep(sha, a, op).0.writers
    ensures MapStep(sha, a, op).0.writers[w].path == a.writers[w].path
  {
    hide Refusal;
  }

  /** Every object in use began somewhere, and has lost its name exactly when some operation since then
      unlinked the path. */
  lemma LinkedIff(sha: Hash, ops: seq<Op>, n: nat, w: nat) returns (k: nat)
    requires n <= |ops| && w in At(sha, ops, n).writers
    ensures k < n && Began(sha, ops, k, n, w)
    ensures Linked(At(sha, ops, n), w) <==>
      forall m | k < m < n :: !Unlinks(At(sha, ops, m), ops[m], ops[k].path, w)
  {
    hide At, Began, Linked, Unlinks;
    k := Beginning(sha, ops, n, w);
    LinkedSince(sha, ops, k, n, w);
  }

  /** A free of `w` takes away something that is not its own. */
  predicate TakesOther(a: Objects, w: nat) {
    w in a.writers && a.writers[w].path in a.slots && a.slots[a.writers[w].path] != Held(w)
  }

  /** The path was unlinked by operation m, and made anew by operation m' and not taken away since. */
  ghost predicate MadeAnew(sha: Hash, ops: seq<Op>, k: nat, m: nat, m': nat, n: nat, w: nat)
    requires k < m < m' < n <= |ops| && ops[k].New?
  {
    Unlinks(At(sha, ops, m), ops[m], ops[k].path, w) && MadeSince(sha, ops, m', n, ops[k].path)
  }

  lemma UnlinkedBeforeMade(sha: Hash, ops: seq<Op>, m: nat, m': nat, n: nat, path: Path, w: nat)
    requires m < n <= |ops| && m' < n
    requires Unlinks(At(sha, ops, m), ops[m], path, w) && MadeSince(sha, ops, m', n, path)
    ensures m < m'
  {
    hide At, Refusal;
    assert Takes(At(sha, ops, m), ops[m], path);
  }

  /** A late free takes away a file it did not create exactly when its own was unlinked, and the path made
      anew and not taken away since. */
  lemma FreeTakesOther(sha: Hash, ops: seq<Op>, n: nat, w: nat) returns (k: nat)
    requires n <= |ops| && w in At(sha, ops, n).writers
    ensures k < n && Began(sha, ops, k, n, w)
    ensures TakesOther(At(sha, ops, n), w) <==>
      exists m, m' | k < m < m' < n :: MadeAnew(sha, ops, k, m, m', n, w)
  {
    k := LinkedIff(sha, ops, n, w);
    var path := ops[k].path;
    PresentIff(sha, ops, n, path);
    hide At, Unlinks, MadeSince, Makes;
    if TakesOther(At(sha, ops, n), w) {
      var m :| k < m < n && Unlinks(At(sha, ops, m), ops[m], path, w);
      var m' :| 0 <= m' < n && MadeSince(sha, ops, m', n, path);
      UnlinkedBeforeMade(sha, ops, m, m', n, path, w);
      assert MadeAnew(sha, ops, k, m, m', n, w);
    }
    if m, m' :| k < m < m' < n && MadeAnew(sha, ops, k, m, m', n, w) {
      assert !Linked(At(sha, ops, n), w);
    }
  }

  // ---------- Where an object comes from ----------

  lemma {:induction false} Replies(sha: Hash, ops: seq<Op>, k: nat)
    requires k < |ops|
    ensures |MapRun(sha, ops).1| == |ops|
    ensures MapRun(sha, ops).1[k] == MapStep(sha, At(sha, ops, k), ops[k]).1
  {
    hide MapStep;
    var n := |ops| - 1;
    if k < n {
      Replies(sha, ops[..n], k);
      assert ops[..n][..k] == ops[..k];
    } else if n > 0 {
      Replies(sha, ops[..n], 0);
    }
  }

  /** Operation k committed `o` at the path, and nothing took it away before operation n. */
  ghost predicate CommittedSince(sha: Hash, ops: seq<Op>, k: nat, n: nat, path: Path, o: Obj)
    requires k < n <= |ops|
  {
    && Commits(At(sha, ops, k), ops[k], path, o)
    && forall m | k < m < n :: !Takes(At(sha, ops, m), ops[m], path)
  }

  lemma StoredStep(sha: Hash, ops: seq<Op>, n: nat, path: Path, o: Obj)
    requires 0 < n <= |ops| && StoredAt(At(sha, ops, n), path, o)
    ensures if StoredAt(At(sha, ops, n - 1), path, o) then !Takes(At(sha, ops, n - 1), ops[n - 1], path)
            else Commits(At(sha, ops, n - 1), ops[n - 1], path, o)
  {
    AtNext(sha, ops, n - 1);
    ObjectsChange(sha, At(sha, ops, n - 1), ops[n - 1], path, o);
    hide At, MapStep, Deletes, Frees, Commits;
  }

  /** Every object stems from a successful commit of its owner and bytes, and was not taken away since. */
  lemma {:induction false} Origin(sha: Hash, ops: seq<Op>, n: nat, path: Path, o: Obj) returns (k: nat)
    requires n <= |ops| && StoredAt(At(sha, ops, n), path, o)
    ensures k < n && CommittedSince(sha, ops, k, n, path, o)
  {
    if n == 0 {
      assert false;
    } else {
      hide At, StoredAt, Takes, Commits;
      StoredStep(sha, ops, n, path, o);
      if StoredAt(At(sha, ops, n - 1), path, o) {
        k := Origin(sha, ops, n - 1, path, o);
      } else {
        k := n - 1;
      }
    }
  }

  /** And such a commit means that the object stands. */
  lemma {:induction false} CommitStands(sha: Hash, ops: seq<Op>, k: nat, n: nat, path: Path, o: Obj)
    requires k < n <= |ops| && CommittedSince(sha, ops, k, n, path, o)
    ensures StoredAt(At(sha, ops, n), path, o)
    decreases n
  {
    AtNext(sha, ops, n - 1);
    ObjectsChange(sha, At(sha, ops, n - 1), ops[n - 1], path, o);
    if n > k + 1 {
      hide At, MapStep, Deletes, Frees, Commits;
      assert CommittedSince(sha, ops, k, n - 1, path, o);
      CommitStands(sha, ops, k, n - 1, path, o);
    }
  }

  ghost predicate Committed(sha: Hash, ops: seq<Op>, n: nat, path: Path, o: Obj)
    requires n <= |ops|
  {
    exists k | 0 <= k < n :: CommittedSince(sha, ops, k, n, path, o)
  }

  /** In every run, an object stands at a path exactly when it was committed there, by a commit that
      succeeded while its file had its name, and nothing took the path away since. */
  lemma StoredIff(sha: Hash, ops: seq<Op>, n: nat, path: Path, o: Obj)
    requires n <= |ops|
    ensures StoredAt(At(sha, ops, n), path, o) <==> Committed(sha, ops, n, path, o)
  {
    hide At, StoredAt, CommittedSince;
    if StoredAt(At(sha, ops, n), path, o) {
      var k := Origin(sha, ops, n, path, o);
    }
    if Committed(sha, ops, n, path, o) {
      var k :| 0 <= k < n && CommittedSince(sha, ops, k, n, path, o);
      CommitStands(sha, ops, k, n, path, o);
    }
  }

  // ---------- Guarded runs ----------

  /** Operation k is a commit of `o` answered with success, and its owner has not deleted it since. */
  ghost predicate KeptSince(sha: Hash, ops: seq<Op>, k: nat, n: nat, path: Path, o: Obj)
    requires k < n <= |ops|
  {
    var a, op := At(sha, ops, k), ops[k];
    && op.Commit? && op.w in a.writers && a.writers[op.w].path == path && o == Obj(op.user, a.writers[op.w].data)
    && MapStep(sha, a, op).1 == Status(Success)
    && forall m | k < m < n :: ops[m] != Delete(o.owner, path)
  }

  lemma GuardedInit(sha: Hash, ops: seq<Op>, n: nat)
    requires n <= |ops| && Guarded(sha, ops)
    ensures AllLinked(At(sha, ops, n)) && Proper(At(sha, ops, n))
  {
    assert forall k | 0 <= k < n :: ops[..n][..k] == ops[..k] && ops[..n][k] == ops[k];
    hide DeletesFailed, MapRun, AllLinked, Proper;
    RunLinks(sha, ops[..n]);
    RunProper(sha, ops[..n]);
  }

  lemma KeptStep(sha: Hash, ops: seq<Op>, n: nat, path: Path, o: Obj)
    requires n < |ops| && Guarded(sha, ops) && StoredAt(At(sha, ops, n), path, o)
    ensures StoredAt(At(sha, ops, n + 1), path, o) <==> ops[n] != Delete(o.owner, path)
  {
    AtNext(sha, ops, n);
    GuardedInit(sha, ops, n);
    hide At, MapStep, Deletes, AllLinked, Guarded;
    LinkedChange(sha, At(sha, ops, n), ops[n], path, o);
    DeletesOwn(At(sha, ops, n), ops[n], path, o);
  }

  lemma KeptFrom(sha: Hash, ops: seq<Op>, k: nat, path: Path, o: Obj)
    requires k < |ops| && Guarded(sha, ops) && KeptSince(sha, ops, k, k + 1, path, o)
    ensures StoredAt(At(sha, ops, k + 1), path, o)
  {
    AtNext(sha, ops, k);
    GuardedInit(sha, ops, k);
    hide At, MapStep, AllLinked, Guarded;
    LinkedChange(sha, At(sha, ops, k), ops[k], path, o);
  }

  lemma {:induction false} KeptStands(sha: Hash, ops: seq<Op>, k: nat, n: nat, path: Path, o: Obj)
    requires k < n <= |ops| && Guarded(sha, ops) && KeptSince(sha, ops, k, n, path, o)
    ensures StoredAt(At(sha, ops, n), path, o)
    decreases n
  {
    hide At, MapStep, Guarded, StoredAt;
    if n == k + 1 {
      KeptFrom(sha, ops, k, path, o);
    } else {
      assert KeptSince(sha, ops, k, n - 1, path, o);
      KeptStands(sha, ops, k, n - 1, path, o);
      KeptStep(sha, ops, n - 1, path, o);
    }
  }

  lemma CommitAnswered(sha: Hash, a: Objects, op: Op, path: Path, o: Obj)
    requires Commits(a, op, path, o)
    ensures op.w in a.writers && MapStep(sha, a, op).1 == Status(Success)
  {
  }

  ghost predicate Kept(sha: Hash, ops: seq<Op>, n: nat, path: Path, o: Obj)
    requires n <= |ops|
  {
    exists k | 0 <= k < n :: KeptSince(sha, ops, k, n, path, o)
  }

  /** In every run that deletes nothing left by a failed commit, an object stands exactly when it was
      committed with success and its owner has not deleted it since. */
  lemma GuardedIff(sha: Hash, ops: seq<Op>, n: nat, path: Path, o: Obj)
    requires n <= |ops| && Guarded(sha, ops)
    ensures StoredAt(At(sha, ops, n), path, o) <==> Kept(sha, ops, n, path, o)
  {
    hide At, StoredAt, MapStep, Guarded, Commits, Takes;
    if StoredAt(At(sha, ops, n), path, o) {
      var k := Origin(sha, ops, n, path, o);
      CommitAnswered(sha, At(sha, ops, k), ops[k], path, o);
      forall m | k < m < n
        ensures ops[m] != Delete(o.owner, path)
      {
        CommitStands(sha, ops, k, m, path, o);
        CommitStands(sha, ops, k, m + 1, path, o);
        KeptStep(sha, ops, m, path, o);
      }
      assert KeptSince(sha, ops, k, n, path, o) by {
        CommitsWhat(At(sha, ops, k), ops[k], path, o);
      }
    }
    if Kept(sha, ops, n, path, o) {
      var k :| 0 <= k < n && KeptSince(sha, ops, k, n, path, o);
      KeptStands(sha, ops, k, n, path, o);
    }
  }

  lemma CommitsWhat(a: Objects, op: Op, path: Path, o: Obj)
    requires Commits(a, op, path, o)
    ensures op.Commit? && op.w in a.writers && a.writers[op.w].path == path && o == Obj(op.user, a.writers[op.w].data)
  {
  }

  // ---------- Failed commits ----------

  /** Operation k tried to commit object w and failed, leaving it as `wr`, and w was not freed before
      operation n. */
  ghost predicate FailedSince(sha: Hash, ops: seq<Op>, k: nat, n: nat, w: nat, wr: Writer)
    requires k < n <= |ops|
  {
    && Fails(sha, At(sha, ops, k), ops[k], w, wr)
    && forall m | k < m < n :: !(ops[m].Free? && ops[m].w == w)
  }

  predicate Fails(sha: Hash, a: Objects, op: Op, w: nat, wr: Writer) {
    && op.Commit? && op.w == w && wr.end.Failed? && op.user == wr.end.user
    && MapUsable(a, w) && a.writers[w] == wr.(end := Going)
    && MapStep(sha, a, op).1 == Status(InternalError)
    && w in MapStep(sha, a, op).0.writers && MapStep(sha, a, op).0.writers[w] == wr
  }

  lemma FailedStep(sha: Hash, a: Objects, op: Op, w: nat, wr: Writer)
    requires w in MapStep(sha, a, op).0.writers && MapStep(sha, a, op).0.writers[w] == wr && wr.end.Failed?
    ensures if w in a.writers && a.writers[w] == wr then !(op.Free? && op.w == w) else Fails(sha, a, op, w, wr)
  {
    hide Refusal;
  }

  lemma FailedStays(sha: Hash, a: Objects, op: Op, w: nat, wr: Writer)
    requires w in a.writers && a.writers[w] == wr && wr.end.Failed? && !(op.Free? && op.w == w)
    ensures w in MapStep(sha, a, op).0.writers && MapStep(sha, a, op).0.writers[w] == wr
  {
    hide Refusal;
  }

  /** A failed commit leaves its object in use until it is freed. */
  lemma {:induction false} FailedStands(sha: Hash, ops: seq<Op>, k: nat, n: nat, w: nat, wr: Writer)
    requires k < n <= |ops| && FailedSince(sha, ops, k, n, w, wr)
    ensures w in At(sha, ops, n).writers && At(sha, ops, n).writers[w] == wr && wr.end.Failed?
    decreases n
  {
    AtNext(sha, ops, n - 1);
    hide At, MapStep;
    if n > k + 1 {
      assert FailedSince(sha, ops, k, n - 1, w, wr);
      FailedStands(sha, ops, k, n - 1, w, wr);
      FailedStays(sha, At(sha, ops, n - 1), ops[n - 1], w, wr);
    }
  }

  /** An object whose commit failed stems from that commit. */
  lemma {:induction false} FailedOrigin(sha: Hash, ops: seq<Op>, n: nat, w: nat, wr: Writer) returns (k: nat)
    requires n <= |ops| && w in At(sha, ops, n).writers && At(sha, ops, n).writers[w] == wr && wr.end.Failed?
    ensures k < n && FailedSince(sha, ops, k, n, w, wr)
  {
    if n == 0 {
      assert false;
    } else {
      AtNext(sha, ops, n - 1);
      FailedStep(sha, At(sha, ops, n - 1), ops[n - 1], w, wr);
      hide At, MapStep;
      if w in At(sha, ops, n - 1).writers && At(sha, ops, n - 1).writers[w] == wr {
        k := FailedOrigin(sha, ops, n - 1, w, wr);
      } else {
        k := n - 1;
      }
    }
  }

  // ---------- What a get returns ----------

  /** A get finds a committed object of the user; or what a failed commit left, if the header shows the
      user's name and the file the key. */
  lemma FoundIff(sha: Hash, a: Objects, user: bytes, path: Path)
    ensures MapGet(sha, a, user, path).Found? <==>
      && KeyValid(path.1) && path.0 != 0 && path in a.slots
      && match a.slots[path]
         case Stored(o) => o.owner == user
         case Held(w) => w in a.writers && Exposed(a.writers[w], user)
  {
  }

  predicate Exposed(wr: Writer, user: bytes) {
    && wr.end.Failed? && HeaderSeen(wr.data, wr.end.n)
    && OwnerSeen(wr.end.user, wr.end.n) == user && KeySeen(wr.path.1, wr.data, wr.end.n)
  }

  /** A get of a proper state, by what the path holds. */
  lemma GetShows(sha: Hash, a: Objects, user: bytes, path: Path, data: bytes)
    requires Proper(a)
    ensures MapGet(sha, a, user, path) == Found(data, sha(data)) <==>
      StoredAt(a, path, Obj(user, data)) || ShownBy(a, user, path, data)
    ensures MapGet(sha, a, user, path).Found? ==>
      MapGet(sha, a, user, path).hash == sha(MapGet(sha, a, user, path).data)
  {
    FoundIff(sha, a, user, path);
  }

  /** The path's name is that of an object whose failed commit shows `data` to the user. */
  predicate ShownBy(a: Objects, user: bytes, path: Path, data: bytes) {
    && path in a.slots && a.slots[path].Held? && a.slots[path].w in a.writers
    && Exposed(a.writers[a.slots[path].w], user) && a.writers[a.slots[path].w].data == data
  }

  /** Object w, made at `path` by operation k0 and not unlinked since, was left as `wr` by the failed commit
      that is operation k and not freed since; and `wr` shows `data` to the user. */
  ghost predicate LeftBy(sha: Hash, ops: seq<Op>, k0: nat, k: nat, n: nat, w: nat, wr: Writer, path: Path,
                         user: bytes, data: bytes)
    requires k0 < n <= |ops| && k < n
  {
    && Began(sha, ops, k0, n, w) && ops[k0].path == path
    && (forall m | k0 < m < n :: !Unlinks(At(sha, ops, m), ops[m], path, w))
    && FailedSince(sha, ops, k, n, w, wr) && Exposed(wr, user) && wr.data == data
  }

  ghost predicate Left(sha: Hash, ops: seq<Op>, n: nat, path: Path, user: bytes, data: bytes)
    requires n <= |ops|
  {
    exists k0, k, w, wr | 0 <= k0 < n && 0 <= k < n :: LeftBy(sha, ops, k0, k, n, w, wr, path, user, data)
  }

  lemma ShownIff(sha: Hash, ops: seq<Op>, n: nat, path: Path, user: bytes, data: bytes)
    requires n <= |ops|
    ensures ShownBy(At(sha, ops, n), user, path, data) <==> Left(sha, ops, n, path, user, data)
  {
    if ShownBy(At(sha, ops, n), user, path, data) {
      var w := At(sha, ops, n).slots[path].w;
      var wr := At(sha, ops, n).writers[w];
      RunProper(sha, ops[..n]);
      hide At, Began, Unlinks, FailedSince;
      var k0 := LinkedIff(sha, ops, n, w);
      BeganPath(sha, ops, k0, n, w);
      var k := FailedOrigin(sha, ops, n, w, wr);
      assert LeftBy(sha, ops, k0, k, n, w, wr, path, user, data);
    }
    if Left(sha, ops, n, path, user, data) {
      var k0, k, w, wr :| 0 <= k0 < n && 0 <= k < n && LeftBy(sha, ops, k0, k, n, w, wr, path, user, data);
      hide At, Began, Unlinks, FailedSince;
      LinkedSince(sha, ops, k0, n, w);
      FailedStands(sha, ops, k, n, w, wr);
      BeganPath(sha, ops, k0, n, w);
    }
  }

  lemma BeganPath(sha: Hash, ops: seq<Op>, k: nat, n: nat, w: nat)
    requires k < n <= |ops| && Began(sha, ops, k, n, w)
    ensures ops[k].New? && w in At(sha, ops, n).writers && At(sha, ops, n).writers[w].path == ops[k].path
  {
  }

  /** Over every run of the volume, a get returns `data` with its hash if and only if the user who asks
      committed it there and nothing took it away since, or a failed commit left it there, showing it to that
      user, and neither was it unlinked nor its object freed since. */
  lemma FoundOverRun(sha: Hash, ops: seq<Op>, user: bytes, path: Path, data: bytes)
    requires RunOk(ops) && UserValid(user)
    ensures FileGet(Run(sha, ops).0.disk, user, path) == Found(data, sha(data)) <==>
      Committed(sha, ops, |ops|, path, Obj(user, data)) || Left(sha, ops, |ops|, path, user, data)
    ensures var r := FileGet(Run(sha, ops).0.disk, user, path); r.Found? ==> r.hash == sha(r.data)
  {
    var n := |ops|;
    assert ops[..n] == ops;
    RunRefines(sha, ops);
    GetRefines(sha, Run(sha, ops).0, At(sha, ops, n), user, path);
    RunProper(sha, ops);
    hide At, Run, MapRun, Represents, FileGet, MapGet, Committed, Left, ShownBy, StoredAt, Proper;
    GetShows(sha, At(sha, ops, n), user, path, data);
    var r := MapGet(sha, At(sha, ops, n), user, path);
    StoredIff(sha, ops, n, path, Obj(user, data));
    ShownIff(sha, ops, n, path, user, data);
  }

  /** What the volume answered to the commit behind what a get returns: success, or an internal error. */
  lemma FoundWasCommitted(sha: Hash, ops: seq<Op>, user: bytes, path: Path, data: bytes) returns (k: nat)
    requires RunOk(ops) && UserValid(user) && FileGet(Run(sha, ops).0.disk, user, path) == Found(data, sha(data))
    ensures k < |ops| == |Run(sha, ops).1| && ops[k].Commit?
    ensures || (Run(sha, ops).1[k] == Status(Success) && CommittedSince(sha, ops, k, |ops|, path, Obj(user, data)))
            || (Run(sha, ops).1[k] == Status(InternalError) && Left(sha, ops, |ops|, path, user, data))
  {
    var n := |ops|;
    FoundOverRun(sha, ops, user, path, data);
    RunRefines(sha, ops);
    hide At, Run, MapRun, Represents, FileGet, Left, MapStep;
    if Committed(sha, ops, n, path, Obj(user, data)) {
      k :| 0 <= k < n && CommittedSince(sha, ops, k, n, path, Obj(user, data));
      CommitAnswered(sha, At(sha, ops, k), ops[k], path, Obj(user, data));
    } else {
      k := LeftCommit(sha, ops, n, path, user, data);
    }
    Replies(sha, ops, k);
  }

  lemma LeftCommit(sha: Hash, ops: seq<Op>, n: nat, path: Path, user: bytes, data: bytes) returns (k: nat)
    requires n <= |ops| && Left(sha, ops, n, path, user, data)
    ensures k < n && ops[k].Commit? && MapStep(sha, At(sha, ops, k), ops[k]).1 == Status(InternalError)
  {
    hide At, Began, Unlinks, MapStep;
    var k0, k', w, wr :| 0 <= k0 < n && 0 <= k' < n && LeftBy(sha, ops, k0, k', n, w, wr, path, user, data);
    k := k';
  }

  // ---------- Outside the guard ----------

  lemma MapRunSnoc(sha: Hash, ops: seq<Op>, op: Op)
    ensures var (a, rs) := MapRun(sha, ops);
      MapRun(sha, ops + [op]) == (MapStep(sha, a, op).0, rs + [MapStep(sha, a, op).1])
  {
    hide MapStep;
    assert (ops + [op])[..|ops|] == ops;
  }

  /** What a PUT or CP of some bytes is called with. */
  ghost predicate PutArgs(path: Path, user: bytes, data: bytes) {
    KeyValid(path.1) && path.0 != 0 && UserValid(user) && data != [] && Fits(|data|)
  }

  /** A whole write of `data` as object w at a free path. */
  lemma Written(sha: Hash, ops: seq<Op>, w: nat, path: Path, user: bytes, data: bytes)
    requires PutArgs(path, user, data) && path !in MapRun(sha, ops).0.slots && w !in MapRun(sha, ops).0.writers
    ensures var (a, rs) := MapRun(sha, ops);
      MapRun(sha, ops + [New(w, path, |data|)] + [Write(w, data)]) ==
        (Objects(a.slots[path := Held(w)], a.writers[w := Writer(path, |data|, data, Going)]),
         rs + [Status(Success)] + [Status(Success)])
  {
    MapRunSnoc(sha, ops, New(w, path, |data|));
    MapRunSnoc(sha, ops + [New(w, path, |data|)], Write(w, data));
    hide MapRun, Refusal;
    var a := MapRun(sha, ops).0;
    assert Room(Writer(path, |data|, [], Going), data);
    assert [] + data == data;
    assert a.writers[w := Writer(path, |data|, [], Going)][w := Writer(path, |data|, data, Going)]
        == a.writers[w := Writer(path, |data|, data, Going)];
  }

  /** An object written and given a commit that fails as `io` says. */
  function FailedRun(path: Path, user: bytes, data: bytes, io: CommitIo): seq<Op> {
    [] + [New(0, path, |data|)] + [Write(0, data)] + [Commit(0, user, io)]
  }

  /** The object left by a failed commit that landed n bytes of the front. */
  function LeftOver(path: Path, user: bytes, data: bytes, n: nat): Writer {
    Writer(path, |data|, data, Failed(user, n))
  }

  lemma CommitFailed(sha: Hash, path: Path, user: bytes, data: bytes, io: CommitIo, n: nat)
    requires !io.AllWritten?
    requires n == Landed(Writer(path, |data|, data, Going), io, ValueOfs(|path.1|, BlkCount(|data|)))
    ensures MapStep(sha, Objects(map[path := Held(0)], map[0 := Writer(path, |data|, data, Going)]),
                    Commit(0, user, io)) ==
      (Objects(map[path := Held(0)], map[0 := LeftOver(path, user, data, n)]), Status(InternalError))
  {
    var wr, left := Writer(path, |data|, data, Going), LeftOver(path, user, data, n);
    assert map[0 := wr][0 := left] == map[0 := left];
  }

  lemma FailedRunIs(sha: Hash, path: Path, user: bytes, data: bytes, io: CommitIo, n: nat)
    requires PutArgs(path, user, data) && !io.AllWritten?
    requires n == Landed(Writer(path, |data|, data, Going), io, ValueOfs(|path.1|, BlkCount(|data|)))
    ensures MapRun(sha, FailedRun(path, user, data, io)) ==
      (Objects(map[path := Held(0)], map[0 := LeftOver(path, user, data, n)]),
       [Status(Success), Status(Success), Status(InternalError)])
  {
    Written(sha, [], 0, path, user, data);
    CommitFailed(sha, path, user, data, io, n);
    MapRunSnoc(sha, [] + [New(0, path, |data|)] + [Write(0, data)], Commit(0, user, io));
    assert MapRun(sha, []) == (Objects(map[], map[]), []);
    hide MapRun, MapStep, LeftOver, PutArgs;
    var ok := Status(Success);
    assert [] + [ok] + [ok] + [Status(InternalError)] == [ok, ok, Status(InternalError)];
  }

  lemma WholeFrontShows(path: Path, user: bytes, data: bytes)
    requires PutArgs(path, user, data)
    ensures Exposed(LeftOver(path, user, data, ValueOfs(|path.1|, BlkCount(|data|))), user)
  {
    var n := ValueOfs(|path.1|, BlkCount(|data|));
    assert OwnerSeen(user, n) == user[..|user|] == user;
  }

  /** A PUT whose final fsync fails answers with an error.  Until the event loop has freed its object, a CP
      worker of the same user can open what it left, and read it, though it was never committed. */
  lemma OpenedUncommitted(sha: Hash, path: Path, user: bytes, data: bytes)
    requires PutArgs(path, user, data)
    ensures var ops := FailedRun(path, user, data, SyncFails);
      && RunOk(ops) && Run(sha, ops).1 == [Status(Success), Status(Success), Status(InternalError)]
      && FileGet(Run(sha, ops).0.disk, user, path) == Found(data, sha(data))
  {
    var ops := FailedRun(path, user, data, SyncFails);
    FailedRunIs(sha, path, user, data, SyncFails, ValueOfs(|path.1|, BlkCount(|data|)));
    WholeFrontShows(path, user, data);
    RunRefines(sha, ops);
    hide Represents, FileGet, MapRun, Run;
    GetRefines(sha, Run(sha, ops).0, MapRun(sha, ops).0, user, path);
  }

  /** Object 0 is that of a CP: its worker writes the header short, by whole header and nothing more.  While
      the worker stands between the failed commit and its free, the event loop serves the owner's DEL of the
      path and a whole PUT there, object 1.  Then the worker frees object 0. */
  function LateRun(path: Path, user: bytes, data: bytes): seq<Op> {
    FailedRun(path, user, data, ShortWrite(HDR)) + [Delete(user, path)] + [New(1, path, |data|)] + [Write(1, data)]
      + [Commit(1, user, AllWritten)] + [Free(0)]
  }

  lemma ShortDelete(sha: Hash, path: Path, user: bytes, data: bytes)
    requires PutArgs(path, user, data)
    ensures MapStep(sha, Objects(map[path := Held(0)], map[0 := LeftOver(path, user, data, HDR)]),
                    Delete(user, path)) ==
      (Objects(map[], map[0 := LeftOver(path, user, data, HDR)]), Status(Success))
  {
    assert OwnerSeen(user, HDR) == user[..|user|] == user;
    assert map[path := Held(0)] - {path} == map[];
  }

  lemma LateRunIs(sha: Hash, path: Path, user: bytes, data: bytes)
    requires PutArgs(path, user, data)
    ensures MapRun(sha, LateRun(path, user, data)).0 == Objects(map[], map[])
    ensures MapRun(sha, LateRun(path, user, data)).1 ==
      [Status(Success), Status(Success), Status(InternalError)] + [Status(Success)]
        + [Status(Success)] + [Status(Success)] + [Status(Success)] + [Status(Success)]
  {
    var ops, wr := FailedRun(path, user, data, ShortWrite(HDR)), LeftOver(path, user, data, HDR);
    FailedRunIs(sha, path, user, data, ShortWrite(HDR), HDR);
    MapRunSnoc(sha, ops, Delete(user, path));
    ShortDelete(sha, path, user, data);
    hide MapRun, FailedRun, LeftOver;
    ops := ops + [Delete(user, path)];
    assert MapRun(sha, ops).0 == Objects(map[], map[0 := wr]);
    Written(sha, ops, 1, path, user, data);
    ops := ops + [New(1, path, |data|)] + [Write(1, data)];
    MapRunSnoc(sha, ops, Commit(1, user, AllWritten));
    Recommitted(sha, wr, path, user, data);
    assert MapRun(sha, ops).0 == Objects(map[path := Held(1)], map[0 := wr, 1 := Writer(path, |data|, data, Going)]);
    ops := ops + [Commit(1, user, AllWritten)];
    assert MapRun(sha, ops).0 == Objects(map[path := Stored(Obj(user, data))], map[0 := wr]);
    MapRunSnoc(sha, ops, Free(0));
    FreedLate(sha, path, user, data);
    ops := ops + [Free(0)];
    assert ops == LateRun(path, user, data);
  }

  lemma FreedLate(sha: Hash, path: Path, user: bytes, data: bytes)
    ensures MapStep(sha, Objects(map[path := Stored(Obj(user, data))], map[0 := LeftOver(path, user, data, HDR)]),
                    Free(0)) ==
      (Objects(map[], map[]), Status(Success))
  {
    assert map[path := Stored(Obj(user, data))] - {path} == map[];
    assert map[0 := LeftOver(path, user, data, HDR)] - {0} == map[];
  }

  lemma Recommitted(sha: Hash, wr: Writer, path: Path, user: bytes, data: bytes)
    ensures MapStep(sha, Objects(map[path := Held(1)], map[0 := wr, 1 := Writer(path, |data|, data, Going)]),
                    Commit(1, user, AllWritten)) ==
      (Objects(map[path := Stored(Obj(user, data))], map[0 := wr]), Status(Success))
  {
    var ws := map[0 := wr, 1 := Writer(path, |data|, data, Going)];
    assert ws - {1} == map[0 := wr];
    assert map[path := Held(1)][path := Stored(Obj(user, data))] == map[path := Stored(Obj(user, data))];
  }

  /** The PUT was told that its object is stored, and nobody deleted it, but it is gone. */
  lemma LateFree(sha: Hash, path: Path, user: bytes, data: bytes)
    requires PutArgs(path, user, data)
    ensures var ops := LateRun(path, user, data);
      && RunOk(ops) && |Run(sha, ops).1| == 8 && Run(sha, ops).1[6] == Status(Success)
      && ops[6] == Commit(1, user, AllWritten) && ops[7] == Free(0)
      && FileGet(Run(sha, ops).0.disk, user, path) == Status(NoSuchKey)
  {
    var ops := LateRun(path, user, data);
    LateRunIs(sha, path, user, data);
    RunRefines(sha, ops);
    hide Represents, FileGet, MapRun, Run;
    GetRefines(sha, Run(sha, ops).0, MapRun(sha, ops).0, user, path);
  }
}
