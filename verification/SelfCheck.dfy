/** Self-check against concurrent writers: the reference-counted dirty cache, and the protocol that
    PUT, CP and the checker thread follow around it (chunkd/objcache.c, chunkd/selfcheck.c,
    chunkd/object.c).  Each call under the cache's mutex is one atomic step. */
module SelfCheck {

  type Key = nat
  type KeyHash = nat

  /** A cache entry. */
  datatype Cell = Cell(ref: nat, dirty: bool)

  type Cache = map<KeyHash, Cell>

  function CacheGet(c: Cache, h: KeyHash, dirty: bool): Cache {
    if h in c then c[h := Cell(c[h].ref + 1, c[h].dirty || dirty)] else c[h := Cell(1, dirty)]
  }

  function CachePut(c: Cache, h: KeyHash): Cache
    requires h in c && c[h].ref > 0
  {
    if c[h].ref == 1 then c - {h} else c[h := c[h].(ref := c[h].ref - 1)]
  }

  class Entry {
    const hash: KeyHash
    var dirty: bool
    var ref: nat

    constructor (hash: KeyHash)
      ensures this.hash == hash && !dirty && ref == 1
    {
      this.hash, dirty, ref := hash, false, 1;
    }
  }

  class ObjCache {
    var table: map<KeyHash, Entry>

    /** Entries are filed under their hash and have holders. */
    ghost predicate Valid()
      reads this, table.Values
    {
      forall h | h in table :: table[h].hash == h && table[h].ref > 0
    }

    ghost function View(): Cache
      reads this, table.Values
    {
      map h | h in table :: Cell(table[h].ref, table[h].dirty)
    }

    constructor ()
      ensures Valid() && View() == map[]
    {
      table := map[];
    }

    /** __objcache_get: finds or makes the entry, counts the holder and adds the flag. */
    method Get(hash: KeyHash, flag: bool) returns (cep: Entry)
      requires Valid()
      modifies this, table.Values
      ensures Valid() && hash in table && table[hash] == cep
      ensures View() == CacheGet(old(View()), hash, flag)
    {
      if hash in table {
        cep := table[hash];
        cep.ref := cep.ref + 1;
      } else {
        cep := new Entry(hash);
        table := table[hash := cep];
      }
      cep.dirty := cep.dirty || flag;
    }

    method TestDirty(cep: Entry) returns (ret: bool)
      requires Valid() && cep.hash in table && table[cep.hash] == cep
      ensures ret == View()[cep.hash].dirty
    {
      ret := cep.dirty;
    }

    /** objcache_put: the last holder takes the entry away. */
    method Put(cep: Entry)
      requires Valid() && cep.hash in table && table[cep.hash] == cep
      modifies this, cep
      ensures Valid() && View() == CachePut(old(View()), cep.hash)
    {
      if cep.ref == 0 {
        return;
      }
      cep.ref := cep.ref - 1;
      if cep.ref == 0 {
        table := table - {cep.hash};
      }
    }
  }

  // ---------- The system ----------

  /** An object's file: which file it is, the hash in its header, and the hash its bytes now have. */
  datatype File = File(id: nat, md: nat, sum: nat)

  /** A file set aside, and the key it stood at. */
  datatype Bad = Bad(key: Key, file: File)

  /** Where the checker stands with the object it is looking at. */
  datatype Checker =
    | Idle
    | Listed(key: Key, md: nat)
    | Holding(key: Key, md: nat)
    | Summed(key: Key, md: nat, act: nat)
    | Judged(key: Key, bad: bool)
    | Done(key: Key)

  /** `writers` maps each PUT or CP under way to its key; `born` numbers the files committed; `aside` lists
      what the checker set aside. */
  datatype Sys = Sys(cache: Cache, writers: map<nat, Key>, files: map<Key, File>, born: nat, chk: Checker,
                     aside: seq<Bad>)

  datatype Event =
    | PutBegin(t: nat, key: Key)
    | PutCommit(t: nat, sum: nat)
    | PutEnd(t: nat)
    | Delete(key: Key)
    | Rot(key: Key, sum: nat)
    | ReadHeader(key: Key)
    | ChkGet
    | ChkSum
    | ChkTest
    | ChkDisable
    | ChkPut

  /** The hash of keys is a parameter; keys may share one. */
  type HashFn = Key -> KeyHash

  predicate Holds(s: Sys) {
    s.chk.Holding? || s.chk.Summed? || s.chk.Judged? || s.chk.Done?
  }

  predicate Enabled(hash: HashFn, s: Sys, e: Event) {
    match e
    case PutBegin(t, _) => t !in s.writers
    case PutCommit(t, _) => t in s.writers && s.writers[t] !in s.files
    case PutEnd(t) => t in s.writers && hash(s.writers[t]) in s.cache && s.cache[hash(s.writers[t])].ref > 0
    case Delete(_) => true
    case Rot(k, _) => k in s.files
    case ReadHeader(k) => s.chk.Idle? && k in s.files
    case ChkGet => s.chk.Listed?
    case ChkSum => s.chk.Holding?
    case ChkTest => s.chk.Summed? && hash(s.chk.key) in s.cache
    case ChkDisable => s.chk.Judged?
    case ChkPut => s.chk.Done? && hash(s.chk.key) in s.cache && s.cache[hash(s.chk.key)].ref > 0
  }

  function Next(hash: HashFn, s: Sys, e: Event): Sys
    requires Enabled(hash, s, e)
  {
    match e
    case PutBegin(t, k) => s.(writers := s.writers[t := k], cache := CacheGet(s.cache, hash(k), true))
    case PutCommit(t, sum) => s.(files := s.files[s.writers[t] := File(s.born, sum, sum)], born := s.born + 1)
    case PutEnd(t) => s.(writers := s.writers - {t}, cache := CachePut(s.cache, hash(s.writers[t])))
    case Delete(k) => s.(files := s.files - {k})
    case Rot(k, sum) => s.(files := s.files[k := s.files[k].(sum := sum)])
    case ReadHeader(k) => s.(chk := Listed(k, s.files[k].md))
    case ChkGet => s.(chk := Holding(s.chk.key, s.chk.md), cache := CacheGet(s.cache, hash(s.chk.key), false))
    case ChkSum =>
      if s.chk.key in s.files then s.(chk := Summed(s.chk.key, s.chk.md, s.files[s.chk.key].sum))
      else s.(chk := Judged(s.chk.key, false))
    case ChkTest =>
      s.(chk := Judged(s.chk.key, !s.cache[hash(s.chk.key)].dirty && s.chk.md != s.chk.act))
    case ChkDisable =>
      if s.chk.bad && s.chk.key in s.files
      then s.(chk := Done(s.chk.key), files := s.files - {s.chk.key},
              aside := s.aside + [Bad(s.chk.key, s.files[s.chk.key])])
      else s.(chk := Done(s.chk.key))
    case ChkPut => s.(chk := Idle, cache := CachePut(s.cache, hash(s.chk.key)))
  }

  // ---------- Reference counts ----------

  function WritersOn(hash: HashFn, s: Sys, h: KeyHash): set<nat> {
    set t | t in s.writers && hash(s.writers[t]) == h
  }

  function Holders(hash: HashFn, s: Sys, h: KeyHash): nat {
    |WritersOn(hash, s, h)| + if Holds(s) && hash(s.chk.key) == h then 1 else 0
  }

  /** An entry under `h` stands for n holders, a writer among them if w. */
  predicate Sound(c: Cache, h: KeyHash, n: nat, w: bool) {
    && (h in c <==> n > 0)
    && (h in c ==> c[h].ref == n)
    && (w ==> h in c && c[h].dirty)
  }

  predicate CellOk(hash: HashFn, s: Sys, h: KeyHash) {
    Sound(s.cache, h, Holders(hash, s, h), WritersOn(hash, s, h) != {})
  }

  /** An entry's count is its outstanding holders, and it is dirty while a writer holds it. */
  ghost predicate Inv(hash: HashFn, s: Sys) {
    forall h :: CellOk(hash, s, h)
  }

  lemma WritersAdd(hash: HashFn, s: Sys, s': Sys, t: nat, k: Key, h: KeyHash)
    requires t !in s.writers && s'.writers == s.writers[t := k]
    ensures WritersOn(hash, s', h) == WritersOn(hash, s, h) + if hash(k) == h then {t} else {}
    ensures t !in WritersOn(hash, s, h)
  {
  }

  lemma PutBeginCell(hash: HashFn, s: Sys, t: nat, k: Key, h: KeyHash)
    requires CellOk(hash, s, h) && Enabled(hash, s, PutBegin(t, k))
    ensures CellOk(hash, Next(hash, s, PutBegin(t, k)), h)
  {
    hide WritersOn;
    var ws := WritersOn(hash, s, h);
    assert ws + {} == ws;
    WritersAdd(hash, s, Next(hash, s, PutBegin(t, k)), t, k, h);
  }

  lemma PutEndCell(hash: HashFn, s: Sys, t: nat, h: KeyHash)
    requires CellOk(hash, s, h) && Enabled(hash, s, PutEnd(t))
    ensures CellOk(hash, Next(hash, s, PutEnd(t)), h)
  {
    var s' := Next(hash, s, PutEnd(t));
    var ws, ws' := WritersOn(hash, s, h), WritersOn(hash, s', h);
    if hash(s.writers[t]) == h {
      assert ws' == ws - {t} && t in ws;
    } else {
      assert ws' == ws;
    }
  }

  lemma NextKeepsCell(hash: HashFn, s: Sys, e: Event, h: KeyHash)
    requires CellOk(hash, s, h) && Enabled(hash, s, e)
    ensures CellOk(hash, Next(hash, s, e), h)
  {
    if e.PutBegin? {
      PutBeginCell(hash, s, e.t, e.key, h);
    } else if e.PutEnd? {
      PutEndCell(hash, s, e.t, h);
    } else {
      assert WritersOn(hash, Next(hash, s, e), h) == WritersOn(hash, s, h);
    }
  }

  lemma NextKeepsInv(hash: HashFn, s: Sys, e: Event)
    requires Inv(hash, s) && Enabled(hash, s, e)
    ensures Inv(hash, Next(hash, s, e))
  {
    forall h
      ensures CellOk(hash, Next(hash, s, e), h)
    {
      assert CellOk(hash, s, h);
      NextKeepsCell(hash, s, e, h);
    }
  }

  /** A release never meets a missing entry or an empty count. */
  lemma ReleaseEnabled(hash: HashFn, s: Sys, t: nat)
    requires Inv(hash, s)
    ensures t in s.writers ==> Enabled(hash, s, PutEnd(t))
    ensures s.chk.Judged? ==> Enabled(hash, s, ChkDisable)
    ensures s.chk.Done? ==> Enabled(hash, s, ChkPut)
    ensures s.chk.Summed? ==> Enabled(hash, s, ChkTest)
  {
    if t in s.writers {
      assert CellOk(hash, s, hash(s.writers[t]));
      assert t in WritersOn(hash, s, hash(s.writers[t]));
    }
    if Holds(s) {
      assert CellOk(hash, s, hash(s.chk.key));
    }
  }

  // ---------- Runs ----------

  datatype Run = Run(states: seq<Sys>, events: seq<Event>)

  /** Any interleaving of the writers, deletes, decay and the checker. */
  ghost predicate IsRun(hash: HashFn, r: Run) {
    && |r.states| == |r.events| + 1
    && r.states[0] == Sys(map[], map[], map[], 0, Idle, [])
    && forall i | 0 <= i < |r.events| ::
         Enabled(hash, r.states[i], r.events[i]) && r.states[i + 1] == Next(hash, r.states[i], r.events[i])
  }

  lemma {:induction false} RunInv(hash: HashFn, r: Run, i: nat)
    requires IsRun(hash, r) && i < |r.states|
    ensures Inv(hash, r.states[i])
  {
    if i == 0 {
      assert forall h :: WritersOn(hash, r.states[0], h) == {};
    } else {
      RunInv(hash, r, i - 1);
      NextKeepsInv(hash, r.states[i - 1], r.events[i - 1]);
    }
  }

  /** A writer is on the checked key's hash. */
  predicate Busy(hash: HashFn, s: Sys, h: KeyHash) {
    WritersOn(hash, s, h) != {}
  }

  /** The checker takes the entry at step i and has not let go of it before state j. */
  ghost predicate HeldSince(r: Run, i: nat, j: nat, key: Key) {
    && i < j < |r.states| && i < |r.events|
    && r.events[i].ChkGet? && r.states[i].chk.Listed? && r.states[i].chk.key == key
    && forall m | i < m <= j :: Holds(r.states[m]) && r.states[m].chk.key == key
  }

  /** One step while the checker holds the entry: the flag is set exactly by a writer arriving, and
      never cleared. */
  lemma StepDirty(hash: HashFn, s: Sys, e: Event, key: Key)
    requires Inv(hash, s) && Enabled(hash, s, e) && Holds(s) && s.chk.key == key
    requires Holds(Next(hash, s, e)) && hash(key) in s.cache && hash(key) in Next(hash, s, e).cache
    ensures Next(hash, s, e).cache[hash(key)].dirty <==>
      s.cache[hash(key)].dirty || Busy(hash, Next(hash, s, e), hash(key))
  {
    var h, s' := hash(key), Next(hash, s, e);
    NextKeepsCell(hash, s, e, h);
    assert CellOk(hash, s, h);
    if e.PutBegin? && hash(e.key) == h {
      assert e.t in WritersOn(hash, s', h);
    } else if e.PutEnd? {
      assert WritersOn(hash, s', h) <= WritersOn(hash, s, h);
      assert CellOk(hash, s, hash(s.writers[e.t]));
    } else {
      assert WritersOn(hash, s', h) == WritersOn(hash, s, h);
    }
  }

  /** When the checker takes an entry, it is dirty exactly if a writer has it. */
  lemma GetDirty(hash: HashFn, s: Sys, h: KeyHash)
    requires Inv(hash, s) && s.chk.Listed? && h == hash(s.chk.key)
    ensures var s' := Next(hash, s, ChkGet); h in s'.cache && (s'.cache[h].dirty <==> Busy(hash, s', h))
  {
    var s' := Next(hash, s, ChkGet);
    assert CellOk(hash, s, h);
    assert WritersOn(hash, s', h) == WritersOn(hash, s, h);
  }

  /** Some writer held the entry in one of the states i+1..j. */
  ghost predicate BusyWithin(hash: HashFn, r: Run, i: nat, j: nat, h: KeyHash)
    requires j < |r.states|
  {
    exists m | i < m <= j :: Busy(hash, r.states[m], h)
  }

  lemma BusyStep(hash: HashFn, r: Run, i: nat, j: nat, h: KeyHash)
    requires i < j < |r.states|
    ensures BusyWithin(hash, r, i, j, h) <==> BusyWithin(hash, r, i, j - 1, h) || Busy(hash, r.states[j], h)
    ensures !BusyWithin(hash, r, i, i, h)
  {
    hide Busy;
  }

  lemma HeldInCache(hash: HashFn, s: Sys)
    requires Inv(hash, s) && Holds(s)
    ensures hash(s.chk.key) in s.cache
  {
    assert CellOk(hash, s, hash(s.chk.key));
  }

  lemma RunStep(hash: HashFn, r: Run, j: nat)
    requires IsRun(hash, r) && 0 < j < |r.states|
    ensures Enabled(hash, r.states[j - 1], r.events[j - 1])
    ensures r.states[j] == Next(hash, r.states[j - 1], r.events[j - 1])
    ensures Inv(hash, r.states[j - 1]) && Inv(hash, r.states[j])
  {
    RunInv(hash, r, j - 1);
    RunInv(hash, r, j);
  }

  /** While the checker holds an entry, its dirty flag says exactly whether some writer has held it
      at any moment since the checker took it. */
  lemma {:induction false} DirtyMeansBusy(hash: HashFn, r: Run, i: nat, j: nat, key: Key)
    requires IsRun(hash, r) && HeldSince(r, i, j, key)
    ensures hash(key) in r.states[j].cache
    ensures r.states[j].cache[hash(key)].dirty <==> BusyWithin(hash, r, i, j, hash(key))
    decreases j
  {
    RunStep(hash, r, j);
    BusyStep(hash, r, i, j, hash(key));
    var s, e, s' := r.states[j - 1], r.events[j - 1], r.states[j];
    hide Next, Enabled, Inv, IsRun, Busy, Holds, BusyWithin;
    HeldInCache(hash, s');
    if j == i + 1 {
      GetDirty(hash, s, hash(key));
    } else {
      DirtyMeansBusy(hash, r, i, j - 1, key);
      StepDirty(hash, s, e, key);
    }
  }

  /** Under every interleaving, the checker condemns an object only if no PUT or CP on its key's hash
      held the cache entry at any moment between the checker's get and its test. */
  lemma CondemnedOnlyIfUndisturbed(hash: HashFn, r: Run, i: nat, j: nat, key: Key)
    requires IsRun(hash, r) && HeldSince(r, i, j, key) && j < |r.events| && r.events[j].ChkTest?
    ensures r.states[j + 1].chk.Judged?
    ensures r.states[j + 1].chk.bad ==> forall m | i < m <= j :: !Busy(hash, r.states[m], hash(key))
    ensures r.states[j].chk.Summed? && (
      r.states[j + 1].chk.bad <==>
        r.states[j].chk.md != r.states[j].chk.act && forall m | i < m <= j :: !Busy(hash, r.states[m], hash(key)))
  {
    DirtyMeansBusy(hash, r, i, j, key);
    assert r.states[j + 1] == Next(hash, r.states[j], r.events[j]);
  }

  /** Whatever the checker holds, it took at some earlier step and has kept since. */
  lemma {:induction false} TakenAt(hash: HashFn, r: Run, n: nat) returns (i: nat)
    requires IsRun(hash, r) && n < |r.states| && Holds(r.states[n])
    ensures HeldSince(r, i, n, r.states[n].chk.key)
  {
    assert n > 0;
    assert r.states[n] == Next(hash, r.states[n - 1], r.events[n - 1]);
    if r.events[n - 1].ChkGet? {
      i := n - 1;
    } else {
      i := TakenAt(hash, r, n - 1);
    }
  }

  lemma {:induction false} JudgedAt(hash: HashFn, r: Run, n: nat) returns (j: nat)
    requires IsRun(hash, r) && n < |r.states| && r.states[n].chk.Judged? && r.states[n].chk.bad
    ensures j < n && r.events[j].ChkTest? && r.states[j + 1].chk == r.states[n].chk
    ensures r.states[j].chk.Summed? && r.states[j].chk.key == r.states[n].chk.key
  {
    assert n > 0;
    assert r.states[n] == Next(hash, r.states[n - 1], r.events[n - 1]);
    if r.events[n - 1].ChkTest? {
      j := n - 1;
    } else {
      j := JudgedAt(hash, r, n - 1);
    }
  }

  /** The checker took the entry of `key` at step i, tested it at step j, and no writer held it from the
      one to the other. */
  ghost predicate QuietCheck(hash: HashFn, r: Run, i: nat, j: nat, key: Key) {
    && HeldSince(r, i, j, key) && j < |r.events| && r.events[j].ChkTest?
    && forall m | i < m <= j :: !Busy(hash, r.states[m], hash(key))
  }

  /** In every run: if step n sets an object aside, the checker had taken and tested its entry before,
      with no PUT or CP on the key's hash holding the entry at any moment in between. */
  lemma AsideOnlyIfQuiet(hash: HashFn, r: Run, n: nat) returns (i: nat, j: nat)
    requires IsRun(hash, r) && n < |r.events| && r.states[n + 1].aside != r.states[n].aside
    ensures r.events[n].ChkDisable? && r.states[n].chk.Judged?
    ensures r.states[n].chk.key in r.states[n].files
    ensures var s := r.states[n];
      r.states[n + 1].aside == s.aside + [Bad(s.chk.key, s.files[s.chk.key])]
    ensures i < j < n && QuietCheck(hash, r, i, j, r.states[n].chk.key)
  {
    assert r.states[n + 1] == Next(hash, r.states[n], r.events[n]);
    j := JudgedAt(hash, r, n);
    i := TakenAt(hash, r, j);
    CondemnedOnlyIfUndisturbed(hash, r, i, j, r.states[n].chk.key);
  }

  // ---------- One check ----------

  predicate ByChecker(e: Event) {
    e.ReadHeader? || e.ChkGet? || e.ChkSum? || e.ChkTest? || e.ChkDisable? || e.ChkPut?
  }

  /** Nothing the checker does lies strictly between steps a and b. */
  ghost predicate Alone(r: Run, a: nat, b: nat)
    requires b <= |r.events|
  {
    forall m | a < m < b :: !ByChecker(r.events[m])
  }

  /** The checker reads the header of `key` at step i0, takes the entry at i, sums the file at c, tests the
      entry at j and acts on its verdict at n. */
  ghost predicate IsCheck(r: Run, i0: nat, i: nat, c: nat, j: nat, n: nat, key: Key) {
    && i0 < i < c < j < n < |r.events|
    && r.events[i0] == ReadHeader(key) && r.events[i].ChkGet? && r.events[c].ChkSum?
    && r.events[j].ChkTest? && r.events[n].ChkDisable?
    && Alone(r, i0, i) && Alone(r, i, c) && Alone(r, c, j) && Alone(r, j, n)
  }

  lemma RunNext(hash: HashFn, r: Run, m: nat)
    requires IsRun(hash, r) && m < |r.events|
    ensures Enabled(hash, r.states[m], r.events[m]) && r.states[m + 1] == Next(hash, r.states[m], r.events[m])
  {
  }

  /** The others do not move the checker. */
  lemma {:induction false} Stays(hash: HashFn, r: Run, a: nat, b: nat)
    requires IsRun(hash, r) && a < b <= |r.events| && Alone(r, a, b)
    ensures r.states[b].chk == r.states[a + 1].chk
    decreases b
  {
    if b > a + 1 {
      hide IsRun, ByChecker;
      Stays(hash, r, a, b - 1);
      NotMoved(hash, r, b - 1);
    }
  }

  /** How a check goes: what the checker knows at each of its steps. */
  lemma Phases(hash: HashFn, r: Run, i0: nat, i: nat, c: nat, j: nat, n: nat, key: Key)
    requires IsRun(hash, r) && IsCheck(r, i0, i, c, j, n, key)
    ensures key in r.states[i0].files && key in r.states[c].files
    ensures var md0, act := r.states[i0].files[key].md, r.states[c].files[key].sum;
      && r.states[i].chk == Listed(key, md0) && r.states[i + 1].chk == r.states[c].chk == Holding(key, md0)
      && r.states[c + 1].chk == r.states[j].chk == Summed(key, md0, act)
      && r.states[j + 1].chk == r.states[n].chk && r.states[n].chk.Judged? && r.states[n].chk.key == key
  {
    Stays(hash, r, i0, i);
    Stays(hash, r, i, c);
    Stays(hash, r, c, j);
    Stays(hash, r, j, n);
    RunNext(hash, r, i0);
    RunNext(hash, r, i);
    RunNext(hash, r, c);
    RunNext(hash, r, j);
    hide IsRun, Alone;
  }

  lemma CheckHolds(hash: HashFn, r: Run, i0: nat, i: nat, c: nat, j: nat, n: nat, key: Key)
    requires IsRun(hash, r) && IsCheck(r, i0, i, c, j, n, key)
    ensures HeldSince(r, i, j, key)
  {
    Phases(hash, r, i0, i, c, j, n, key);
    forall m | i < m <= j
      ensures Holds(r.states[m]) && r.states[m].chk.key == key
    {
      if m <= c {
        assert Alone(r, i, m);
        Stays(hash, r, i, m);
      } else {
        assert Alone(r, c, m);
        Stays(hash, r, c, m);
      }
    }
  }

  /** No PUT or CP on the key's hash holds the entry between the get and the test. */
  ghost predicate Quiet(hash: HashFn, r: Run, i: nat, j: nat, key: Key)
    requires j < |r.states|
  {
    forall m | i < m <= j :: !Busy(hash, r.states[m], hash(key))
  }

  ghost predicate CorruptAt(s: Sys, key: Key) {
    key in s.files && s.files[key].md != s.files[key].sum
  }

  /** The verdict of a check, exactly: the header hash read first differs from the sum taken later, and no
      writer came by.  So a file that is intact when it is summed is condemned if and only if it is not the
      content whose header was read, and no writer came by. */
  lemma VerdictExact(hash: HashFn, r: Run, i0: nat, i: nat, c: nat, j: nat, n: nat, key: Key)
    requires IsRun(hash, r) && IsCheck(r, i0, i, c, j, n, key)
    ensures key in r.states[i0].files && key in r.states[c].files && r.states[j + 1].chk.Judged?
    ensures r.states[j + 1].chk.bad <==>
      r.states[i0].files[key].md != r.states[c].files[key].sum && Quiet(hash, r, i, j, key)
    ensures !CorruptAt(r.states[c], key) ==>
      (r.states[j + 1].chk.bad <==>
         r.states[i0].files[key].md != r.states[c].files[key].md && Quiet(hash, r, i, j, key))
  {
    CheckHolds(hash, r, i0, i, c, j, n, key);
    Phases(hash, r, i0, i, c, j, n, key);
    CondemnedOnlyIfUndisturbed(hash, r, i, j, key);
    hide IsRun, HeldSince, Busy;
  }

  // ---------- What gets set aside ----------

  /** Files are numbered below `born`. */
  ghost predicate Numbered(s: Sys) {
    forall k | k in s.files :: s.files[k].id < s.born
  }

  lemma {:induction false} RunNumbered(hash: HashFn, r: Run, m: nat)
    requires IsRun(hash, r) && m < |r.states|
    ensures Numbered(r.states[m])
  {
    if m > 0 {
      RunNumbered(hash, r, m - 1);
      RunNext(hash, r, m - 1);
      hide IsRun;
    }
  }

  /** A step takes the file of `key` away. */
  predicate Takes(s: Sys, e: Event, key: Key) {
    (e.Delete? && e.key == key) || (e.ChkDisable? && s.chk.Judged? && s.chk.bad && s.chk.key == key)
  }

  lemma FileStep(hash: HashFn, s: Sys, e: Event, key: Key)
    requires Enabled(hash, s, e) && Numbered(s)
    ensures var s' := Next(hash, s, e);
      && s.born <= s'.born
      && (Takes(s, e, key) ==> key !in s'.files)
      && (key in s.files && !Takes(s, e, key) ==>
            key in s'.files && s'.files[key].id == s.files[key].id && s'.files[key].md == s.files[key].md)
      && (key !in s.files && key in s'.files ==> s'.files[key].id == s.born)
  {
  }

  lemma FileNext(hash: HashFn, r: Run, m: nat, key: Key)
    requires IsRun(hash, r) && m < |r.events| && m + 1 < |r.states|
    ensures var s, e, s' := r.states[m], r.events[m], r.states[m + 1];
      && s.born <= s'.born
      && (Takes(s, e, key) ==> key !in s'.files)
      && (key in s.files && !Takes(s, e, key) ==>
            key in s'.files && s'.files[key].id == s.files[key].id && s'.files[key].md == s.files[key].md)
      && (key !in s.files && key in s'.files ==> s'.files[key].id == s.born)
  {
    RunNext(hash, r, m);
    RunNumbered(hash, r, m);
    hide IsRun, Enabled, Next, Takes;
    FileStep(hash, r.states[m], r.events[m], key);
  }

  /** As long as nothing takes it away, the file of `key` is the same file with the same header. */
  lemma {:induction false} SameFile(hash: HashFn, r: Run, a: nat, b: nat, key: Key)
    requires IsRun(hash, r) && a <= b <= |r.events| && key in r.states[a].files
    requires forall m | a <= m < b :: !Takes(r.states[m], r.events[m], key)
    ensures key in r.states[b].files && r.states[b].files[key].id == r.states[a].files[key].id
    ensures r.states[b].files[key].md == r.states[a].files[key].md
    decreases b
  {
    if b > a {
      hide IsRun, Takes;
      SameFile(hash, r, a, b - 1, key);
      FileNext(hash, r, b - 1, key);
    }
  }

  /** A file that stands where none was before is a new one. */
  lemma {:induction false} NewFile(hash: HashFn, r: Run, a: nat, b: nat, key: Key)
    requires IsRun(hash, r) && a <= b <= |r.events| && key !in r.states[a].files
    ensures r.states[a].born <= r.states[b].born
    ensures key in r.states[b].files ==> r.states[b].files[key].id >= r.states[a].born
    decreases b
  {
    if b > a {
      hide IsRun, Takes;
      NewFile(hash, r, a, b - 1, key);
      FileNext(hash, r, b - 1, key);
    }
  }

  lemma {:induction false} BornGrows(hash: HashFn, r: Run, a: nat, b: nat)
    requires IsRun(hash, r) && a <= b <= |r.events|
    ensures r.states[a].born <= r.states[b].born
    decreases b
  {
    if b > a {
      BornGrows(hash, r, a, b - 1);
      RunNext(hash, r, b - 1);
    }
  }

  /** The file at `key` is the same at two moments exactly when nothing took it away in between. */
  lemma SameFileIff(hash: HashFn, r: Run, a: nat, b: nat, key: Key)
    requires IsRun(hash, r) && a <= b <= |r.events| && key in r.states[a].files && key in r.states[b].files
    ensures r.states[b].files[key].id == r.states[a].files[key].id <==>
      forall m | a <= m < b :: !Takes(r.states[m], r.events[m], key)
  {
    hide Takes;
    if forall m | a <= m < b :: !Takes(r.states[m], r.events[m], key) {
      SameFile(hash, r, a, b, key);
    } else {
      var m :| a <= m < b && Takes(r.states[m], r.events[m], key);
      RunNumbered(hash, r, a);
      RunNumbered(hash, r, m);
      BornGrows(hash, r, a, m);
      RunNext(hash, r, m);
      FileStep(hash, r.states[m], r.events[m], key);
      hide IsRun, Enabled, Next;
      NewFile(hash, r, m + 1, b, key);
    }
  }

  /** `key` is deleted strictly between steps a and b. */
  ghost predicate DeletedBetween(r: Run, a: nat, b: nat, key: Key)
    requires b <= |r.events|
  {
    exists m | a < m < b :: r.events[m] == Delete(key)
  }

  /** Within a check only a delete takes a file away. */
  lemma OnlyDeletes(hash: HashFn, r: Run, i0: nat, i: nat, c: nat, j: nat, n: nat, key: Key)
    requires IsRun(hash, r) && IsCheck(r, i0, i, c, j, n, key)
    ensures forall m | i0 <= m < n :: (Takes(r.states[m], r.events[m], key) <==> r.events[m] == Delete(key))
  {
    forall m | i0 <= m < n
      ensures Takes(r.states[m], r.events[m], key) <==> r.events[m] == Delete(key)
    {
      assert i0 < m < i ==> !ByChecker(r.events[m]);
      assert i < m < c ==> !ByChecker(r.events[m]);
      assert c < m < j ==> !ByChecker(r.events[m]);
      assert j < m < n ==> !ByChecker(r.events[m]);
    }
  }

  /** What a check sets aside, exactly.  Step n renames whatever file then stands at the key, if the verdict
      was bad.  That is the file summed at c, or the one whose header was read at i0, if and only if the key
      was not deleted since. */
  lemma SetAsideExact(hash: HashFn, r: Run, i0: nat, i: nat, c: nat, j: nat, n: nat, key: Key)
    requires IsRun(hash, r) && IsCheck(r, i0, i, c, j, n, key)
    ensures key in r.states[i0].files && key in r.states[c].files
    ensures var md0, act := r.states[i0].files[key].md, r.states[c].files[key].sum;
      r.states[n + 1].aside != r.states[n].aside <==>
        key in r.states[n].files && md0 != act && Quiet(hash, r, i, j, key)
    ensures r.states[n + 1].aside != r.states[n].aside ==>
      && r.states[n + 1].aside == r.states[n].aside + [Bad(key, r.states[n].files[key])]
      && (r.states[n].files[key].id == r.states[c].files[key].id <==> !DeletedBetween(r, c, n, key))
      && (r.states[n].files[key].id == r.states[i0].files[key].id <==> !DeletedBetween(r, i0, n, key))
  {
    VerdictExact(hash, r, i0, i, c, j, n, key);
    Phases(hash, r, i0, i, c, j, n, key);
    OnlyDeletes(hash, r, i0, i, c, j, n, key);
    RunNext(hash, r, n);
    if key in r.states[n].files {
      SameFileIff(hash, r, c, n, key);
      SameFileIff(hash, r, i0, n, key);
    }
    hide IsRun, Quiet, Takes, Alone;
  }

  /** The file set aside at step n is the one summed at c, and was corrupt then. */
  ghost predicate Justified(r: Run, c: nat, n: nat, key: Key)
    requires c < |r.states| && n < |r.states|
  {
    key in r.states[n].files && CorruptAt(r.states[c], key) && r.states[n].files[key].id == r.states[c].files[key].id
  }

  /** When a check sets aside a file that it did not find corrupt: exactly when no writer came by between get
      and test, the sum differs from the header read first, and either the file was deleted and made anew
      after it was summed, or it was intact when it was summed. */
  lemma WrongIff(hash: HashFn, r: Run, i0: nat, i: nat, c: nat, j: nat, n: nat, key: Key)
    requires IsRun(hash, r) && IsCheck(r, i0, i, c, j, n, key)
    ensures key in r.states[i0].files && key in r.states[c].files
    ensures (r.states[n + 1].aside != r.states[n].aside && !Justified(r, c, n, key)) <==>
      && key in r.states[n].files && Quiet(hash, r, i, j, key)
      && r.states[i0].files[key].md != r.states[c].files[key].sum
      && (DeletedBetween(r, c, n, key) || r.states[c].files[key].md == r.states[c].files[key].sum)
  {
    SetAsideExact(hash, r, i0, i, c, j, n, key);
    hide IsRun, Quiet, IsCheck, DeletedBetween;
  }

  /** So an object not deleted from the header read to the verdict's execution is set aside only if its bytes
      did not match its header when they were summed. */
  lemma AsideOnlyIfCorrupt(hash: HashFn, r: Run, i0: nat, i: nat, c: nat, j: nat, n: nat, key: Key)
    requires IsRun(hash, r) && IsCheck(r, i0, i, c, j, n, key)
    requires r.states[n + 1].aside != r.states[n].aside && !DeletedBetween(r, i0, n, key)
    ensures Justified(r, c, n, key)
  {
    SetAsideExact(hash, r, i0, i, c, j, n, key);
    OnlyDeletes(hash, r, i0, i, c, j, n, key);
    assert forall m | i0 <= m < c :: !Takes(r.states[m], r.events[m], key) by {
      assert forall m | i0 < m < n :: r.events[m] != Delete(key);
    }
    SameFile(hash, r, i0, c, key);
  }

  /** Which step brought the checker where it is. */
  lemma CameBy(hash: HashFn, r: Run, m: nat)
    requires IsRun(hash, r) && m < |r.events| && ByChecker(r.events[m])
    ensures var s, e, chk := r.states[m].chk, r.events[m], r.states[m + 1].chk;
      && (chk.Judged? && chk.bad ==> e.ChkTest? && s.Summed? && s.key == chk.key)
      && (chk.Summed? ==> e.ChkSum? && s.Holding? && s.key == chk.key)
      && (chk.Holding? ==> e.ChkGet? && s.Listed? && s.key == chk.key)
      && (chk.Listed? ==> e == ReadHeader(chk.key))
  {
    RunNext(hash, r, m);
    hide IsRun;
  }

  lemma Disabling(hash: HashFn, r: Run, n: nat)
    requires IsRun(hash, r) && n < |r.events| && r.states[n + 1].aside != r.states[n].aside
    ensures r.events[n].ChkDisable? && r.states[n].chk.Judged? && r.states[n].chk.bad
  {
    RunNext(hash, r, n);
    hide IsRun;
  }

  /** Every file set aside was set aside by such a check. */
  lemma AsideByCheck(hash: HashFn, r: Run, n: nat) returns (i0: nat, i: nat, c: nat, j: nat)
    requires IsRun(hash, r) && n < |r.events| && r.states[n + 1].aside != r.states[n].aside
    ensures r.states[n].chk.Judged? && IsCheck(r, i0, i, c, j, n, r.states[n].chk.key)
  {
    assert |r.states| == |r.events| + 1;
    hide IsRun, Alone, ByChecker;
    Disabling(hash, r, n);
    j := LastStep(hash, r, n);
    CameBy(hash, r, j);
    c := LastStep(hash, r, j);
    CameBy(hash, r, c);
    i := LastStep(hash, r, c);
    CameBy(hash, r, i);
    i0 := LastStep(hash, r, i);
    CameBy(hash, r, i0);
  }

  /** The checker's last step before n. */
  lemma {:induction false} LastStep(hash: HashFn, r: Run, n: nat) returns (m: nat)
    requires IsRun(hash, r) && n < |r.states| && !r.states[n].chk.Idle?
    ensures m < n <= |r.events| && ByChecker(r.events[m]) && Alone(r, m, n) && r.states[m + 1].chk == r.states[n].chk
  {
    StartsIdle(hash, r);
    if ByChecker(r.events[n - 1]) {
      m := n - 1;
    } else {
      hide IsRun, ByChecker, Alone;
      NotMoved(hash, r, n - 1);
      m := LastStep(hash, r, n - 1);
      AloneMore(r, m, n - 1);
    }
  }

  lemma AloneMore(r: Run, a: nat, b: nat)
    requires b < |r.events| && Alone(r, a, b) && !ByChecker(r.events[b])
    ensures Alone(r, a, b + 1)
  {
    hide ByChecker;
  }

  lemma StartsIdle(hash: HashFn, r: Run)
    requires IsRun(hash, r)
    ensures |r.states| == |r.events| + 1 && r.states[0].chk.Idle?
  {
  }

  lemma NotMoved(hash: HashFn, r: Run, m: nat)
    requires IsRun(hash, r) && m < |r.events| && !ByChecker(r.events[m])
    ensures r.states[m + 1].chk == r.states[m].chk
  {
    RunNext(hash, r, m);
    hide IsRun;
  }

  // ---------- Two runs outside the guard ----------

  function Last(r: Run): Sys
    requires |r.states| > 0
  {
    r.states[|r.states| - 1]
  }

  ghost predicate Fine(s: Sys, key: Key, id: nat) {
    CorruptAt(s, key) ==> s.files[key].id < id
  }

  /** A run in which no file of `key` numbered `id` or later ever was corrupt. */
  ghost predicate Spared(hash: HashFn, r: Run, key: Key, id: nat) {
    IsRun(hash, r) && forall m | 0 <= m < |r.states| :: Fine(r.states[m], key, id)
  }

  lemma Extend(hash: HashFn, r: Run, e: Event, s: Sys, key: Key, id: nat) returns (r': Run)
    requires Spared(hash, r, key, id) && Enabled(hash, Last(r), e) && Next(hash, Last(r), e) == s && Fine(s, key, id)
    ensures Spared(hash, r', key, id) && Last(r') == s
  {
    hide Next, Enabled, Fine;
    r' := Run(r.states + [s], r.events + [e]);
  }

  /** A whole PUT of `key` with content `sum`, beside whatever the checker holds. */
  lemma WholePut(hash: HashFn, r: Run, key: Key, sum: nat, id: nat) returns (r': Run)
    requires Spared(hash, r, key, id) && Last(r).writers == map[] && Last(r).files == map[]
    requires Last(r).cache == map[] || (Last(r).cache.Keys == {hash(key)} && Last(r).cache[hash(key)].ref == 1)
    ensures Spared(hash, r', key, id)
    ensures var s := Last(r);
      Last(r') == s.(files := map[key := File(s.born, sum, sum)], born := s.born + 1,
                     cache := if s.cache == map[] then map[] else map[hash(key) := Cell(1, true)])
  {
    var s := Last(r);
    hide Spared;
    var h := hash(key);
    var held := s.cache != map[];
    var began := s.(writers := map[0 := key], cache := map[h := Cell(if held then 2 else 1, true)]);
    var done := began.(files := map[key := File(s.born, sum, sum)], born := s.born + 1);
    assert map[0 := key] - {0} == map[] && map[h := Cell(1, true)] - {h} == map[];
    assert CacheGet(s.cache, h, true) == began.cache;
    r' := Extend(hash, r, PutBegin(0, key), began, key, id);
    r' := Extend(hash, r', PutCommit(0, sum), done, key, id);
    var left := if held then map[h := Cell(1, true)] else map[];
    r' := Extend(hash, r', PutEnd(0), done.(writers := map[], cache := left), key, id);
  }

  /** The checker's get, sum and test of a file whose sum is not the header hash it read. */
  lemma BadVerdict(hash: HashFn, r: Run, key: Key, id: nat) returns (r': Run)
    requires Spared(hash, r, key, id) && Last(r).cache == map[] && Last(r).chk.Listed? && Last(r).chk.key == key
    requires key in Last(r).files && Last(r).files[key].sum != Last(r).chk.md && Fine(Last(r), key, id)
    ensures Spared(hash, r', key, id)
    ensures Last(r') == Last(r).(cache := map[hash(key) := Cell(1, false)], chk := Judged(key, true))
  {
    var s := Last(r);
    hide Spared;
    var held := s.(cache := map[hash(key) := Cell(1, false)], chk := Holding(key, s.chk.md));
    r' := Extend(hash, r, ChkGet, held, key, id);
    r' := Extend(hash, r', ChkSum, held.(chk := Summed(key, s.chk.md, s.files[key].sum)), key, id);
    r' := Extend(hash, r', ChkTest, held.(chk := Judged(key, true)), key, id);
  }

  /** The verdict is carried out. */
  lemma Disable(hash: HashFn, r: Run, key: Key, id: nat, file: File) returns (r': Run)
    requires Spared(hash, r, key, id) && Last(r).chk == Judged(key, true) && Last(r).files == map[key := file]
    ensures Spared(hash, r', key, id) && Last(r').aside == Last(r).aside + [Bad(key, file)]
  {
    var s := Last(r);
    hide Spared;
    assert s.files - {key} == map[];
    var s' := s.(chk := Done(key), files := map[], aside := s.aside + [Bad(key, file)]);
    r' := Extend(hash, r, ChkDisable, s', key, id);
  }

  const START: Sys := Sys(map[], map[], map[], 0, Idle, [])

  lemma Started(hash: HashFn, key: Key, id: nat) returns (r: Run)
    ensures Spared(hash, r, key, id) && Last(r) == START
  {
    r := Run([START], []);
  }

  /** First window: the header is read before the entry is taken.  An object deleted and put again in between
      is set aside, although no file of that key ever was corrupt. */
  lemma IntactSetAside(hash: HashFn, key: Key) returns (r: Run)
    ensures Spared(hash, r, key, 0)
    ensures Last(r).aside == [Bad(key, File(1, 2, 2))]
  {
    r := Started(hash, key, 0);
    hide Spared;
    r := WholePut(hash, r, key, 1, 0);
    assert map[key := File(0, 1, 1)] - {key} == map[];
    r := Extend(hash, r, ReadHeader(key), Last(r).(chk := Listed(key, 1)), key, 0);
    r := Extend(hash, r, Delete(key), Last(r).(files := map[]), key, 0);
    r := WholePut(hash, r, key, 2, 0);
    r := BadVerdict(hash, r, key, 0);
    r := Disable(hash, r, key, 0, File(1, 2, 2));
  }

  /** Second window: the verdict is carried out by name.  A corrupt object is found, deleted and put again
      before it is set aside: the new file, numbered 1, is set aside, although it never was corrupt. */
  lemma ReplacedSetAside(hash: HashFn, key: Key) returns (r: Run)
    ensures Spared(hash, r, key, 1)
    ensures Last(r).aside == [Bad(key, File(1, 1, 1))]
  {
    r := Started(hash, key, 1);
    hide Spared;
    r := WholePut(hash, r, key, 1, 1);
    var rotten := map[key := File(0, 1, 9)];
    r := Extend(hash, r, Rot(key, 9), Last(r).(files := rotten), key, 1);
    r := Extend(hash, r, ReadHeader(key), Last(r).(chk := Listed(key, 1)), key, 1);
    r := BadVerdict(hash, r, key, 1);
    assert rotten - {key} == map[];
    r := Extend(hash, r, Delete(key), Last(r).(files := map[]), key, 1);
    r := WholePut(hash, r, key, 1, 1);
    r := Disable(hash, r, key, 1, File(1, 1, 1));
  }
}
