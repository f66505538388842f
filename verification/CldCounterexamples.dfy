/** Concrete runs that leave the guards of CldGuards and lose what the guards protect. */
module CldCounterexamples {
  import opened Bytes
  import opened Pathname
  import opened Namespace
  import opened Cld
  import opened CldGuards
  import Directory
  import Locks

  const F: bytes := [0x2F, 0x66]              // "/f"
  const FG: bytes := [0x2F, 0x66, 0x2F, 0x67] // "/f/g"
  const MODE := Mode(true, true, true, false, true, false, false)
  const E := Env(1, NoFault)

  lemma Paths()
    ensures ValidInodeName(F) && PathnameParse(F) == PathInfo(ROOT, [0x66])
    ensures ValidInodeName(FG) && PathnameParse(FG) == PathInfo(F, [0x67])
  {
    assert AfterLastSlash(F, 2) == AfterLastSlash(F, 1) == 1;
    assert AfterLastSlash(FG, 4) == AfterLastSlash(FG, 3) == 3;
    assert F[..1] == ROOT && F[1..] == [0x66];
    assert FG[..2] == F && FG[3..] == [0x67];
  }

  const ns0: Ns := Namespace.Initial(1)

  /** Session 1 creates the file "/f" as inode 51 and gets handle 2 on it. */
  lemma Opened()
    ensures var s := Run(Cld.Initial(1), [(NewSess(1), E), (Open(1, F, MODE, 0, [51]), E)]);
      && HasParent(ns0, F)
      && s == Server(Db(Create(ns0, F, false, 51, 1), map[(1, 2) := Handle(51, MODE, 0)], map[], map[1 := 3]),
                     map[1 := 3])
  {
    Paths();
    var a, b := (NewSess(1), E), (Open(1, F, MODE, 0, [51]), E);
    assert [a, b][..1] == [a] && [a][..0] == [];
    assert Run(Cld.Initial(1), []) == Cld.Initial(1);
    var s1 := Run(Cld.Initial(1), [a]);
    assert s1 == Server(Db(ns0, map[], map[], map[1 := 2]), map[1 := 2]);
    assert PickInum(ns0.inodes, [51], 0) == 51;
    assert Resolve(ns0, F, MODE, [51]) == Fresh(51);
    assert Run(Cld.Initial(1), [a, b]) == OpenStep(s1, 1, F, MODE, 0, [51], E).0;
  }

  /** Creating "/f/g" under the file "/f" succeeds and leaves a name no directory lists. */
  lemma TreeBroken()
    ensures var run := [(NewSess(1), E), (Open(1, F, MODE, 0, [51]), E)];
      && CreatesUnderFile(Run(Cld.Initial(1), run), Open(1, FG, MODE, 0, [52]), E)
      && !Tree(Run(Cld.Initial(1), run + [(Open(1, FG, MODE, 0, [52]), E)]).db.ns)
  {
    Paths();
    Opened();
    var run := [(NewSess(1), E), (Open(1, F, MODE, 0, [51]), E)];
    var s := Run(Cld.Initial(1), run);
    var req := Open(1, FG, MODE, 0, [52]);
    assert PickInum(s.db.ns.inodes, [52], 0) == 52;
    assert Resolve(s.db.ns, FG, MODE, [52]) == Fresh(52);
    assert (run + [(req, E)])[..2] == run;
    var ns' := Create(s.db.ns, FG, false, 52, 1);
    assert Run(Cld.Initial(1), run + [(req, E)]).db.ns == ns';
    assert !Rooted(ns', FG);
  }

  const OPENED := [(NewSess(1), E), (Open(1, F, MODE, 0, [51]), E)]
  const LOCKED := OPENED + [(Request.Lock(1, 2, false, true), E)]

  /** The session then locks its file, deletes it and ends: its lock record is still there, now of a
      session that no longer exists, and would meet the next file given that inode number. */
  lemma LockLeftBehind()
    ensures var s := Run(Cld.Initial(1), LOCKED);
      && DeletesLocked(s, Del(1, F), E)
      && var s' := Step(Step(s, Del(1, F), E).0, EndSess(1), E).0;
         && 1 !in s'.db.sessions && s'.db.handles == map[] && 51 !in s'.db.ns.inodes
         && LocksOf(s'.db.locks, 51) == [Locks.Lock(1, 2, 1, false, false)]
  {
    Locked();
    DeleteF();
    hide Create, Delete, DelCheck, Run;
    var s := Run(Cld.Initial(1), LOCKED);
    var s3 := Step(s, Del(1, F), E).0;
    assert s3.db.handles == map[] && s3.db.locks == map[51 := [Locks.Lock(1, 2, 1, false, false)]];
    assert s3.live == map[1 := 3] && s3.db.sessions == map[1 := 3] && 51 !in s3.db.ns.inodes;
    hide Step;
    EndsWithLock(s3);
  }

  /** A session that ends without handles leaves lock records as they are. */
  lemma EndsWithLock(s: Server)
    requires s.live == map[1 := 3] && s.db.sessions == map[1 := 3] && s.db.handles == map[]
    requires s.db.locks == map[51 := [Locks.Lock(1, 2, 1, false, false)]]
    ensures var s' := Step(s, EndSess(1), E).0;
      && 1 !in s'.db.sessions && s'.db.handles == map[] && s'.db.ns == s.db.ns
      && LocksOf(s'.db.locks, 51) == [Locks.Lock(1, 2, 1, false, false)]
  {
    assert !HasLockHandle(s.db.handles, 1, 51);
  }

  lemma Locked()
    ensures HasParent(ns0, F)
    ensures Run(Cld.Initial(1), LOCKED) ==
      Server(Db(Create(ns0, F, false, 51, 1), map[(1, 2) := Handle(51, MODE, 0)],
                map[51 := [Locks.Lock(1, 2, 1, false, false)]], map[1 := 3]), map[1 := 3])
  {
    Opened();
    hide Create;
    assert LOCKED[..2] == OPENED;
    var l := Locks.Lock(1, 2, 1, false, false);
    assert Locks.Insert([], l) == [l];
    assert !Locks.Present([], l) && !Locks.HasConflict([], false);
  }

  /** "/f" is a listed, deletable file. */
  lemma DeleteF()
    ensures HasParent(ns0, F)
    ensures var ns := Create(ns0, F, false, 51, 1);
      ns.names == map[ROOT := 10, F := 51] && DelCheck(ns, F) == Success && 51 !in Delete(ns, F, 1).inodes
  {
    Paths();
    var ns := Create(ns0, F, false, 51, 1);
    assert ns.names == map[ROOT := 10, F := 51];
    assert Data(ns, 10) == [] + Directory.Record([0x66]) == Directory.Record([0x66]);
    Directory.ParseRecord([0x66]);
  }
}
