/** The inode table, the name index and the per-inode data of the CLD database, and the edits
    that creating, writing and deleting a file make to them (cld/msg.c, cld/cldb.c). */
module Namespace {
  import opened Bytes
  import opened Directory
  import opened Pathname

  type Inum = nat

  const INO_ROOT: Inum := 10
  const INO_RESERVED_LAST: Inum := 50
  const TWO_32: nat := 0x1_0000_0000

  datatype Inode = Inode(name: bytes, isDir: bool, size: nat, version: nat, created: int, modified: int)

  datatype Ns = Ns(inodes: map<Inum, Inode>, names: map<bytes, Inum>, data: map<Inum, bytes>)

  /** Data of an inode; an inode without a data record reads as empty. */
  function Data(ns: Ns, i: Inum): bytes {
    if i in ns.data then ns.data[i] else []
  }

  function Children(ns: Ns, i: Inum): seq<bytes> {
    Parse(Data(ns, i)).names
  }

  /** New modification time and version; the version is kept in 32 bits. */
  function Touch(ino: Inode, now: int): Inode {
    ino.(modified := now,
         created := if ino.created == 0 then now else ino.created,
         version := (ino.version % TWO_32 + 1) % TWO_32)
  }

  /** Writes an inode record and its entry in the name index. */
  function InodePut(ns: Ns, i: Inum, ino: Inode): Ns {
    ns.(inodes := ns.inodes[i := ino], names := ns.names[ino.name := i])
  }

  /** Replaces an inode's data and records the new length, kept in 32 bits. */
  function StoreData(ns: Ns, i: Inum, data: bytes, now: int): Ns
    requires i in ns.inodes
  {
    InodePut(ns.(data := ns.data[i := data]), i, Touch(ns.inodes[i].(size := |data| % TWO_32), now))
  }

  predicate HasParent(ns: Ns, name: bytes) {
    PathnameParse(name).dir in ns.names && ns.names[PathnameParse(name).dir] in ns.inodes
  }

  /** Enters `name` under its parent and adds its inode. */
  function Create(ns: Ns, name: bytes, isDir: bool, i: Inum, now: int): Ns
    requires HasParent(ns, name)
  {
    var info := PathnameParse(name);
    var p := ns.names[info.dir];
    InodePut(StoreData(ns, p, Data(ns, p) + Record(info.base), now), i,
             Touch(Inode(name, isDir, 0, 0, now, now), now))
  }

  /** The parent, the file and the parent's entry for it are all there. */
  predicate Listed(ns: Ns, name: bytes) {
    && HasParent(ns, name)
    && name in ns.names && ns.names[name] in ns.inodes
    && PathnameParse(name).base in Children(ns, ns.names[PathnameParse(name).dir])
  }

  /** Removes the inode of `name`, its data and its entry in the parent. */
  function Delete(ns: Ns, name: bytes, now: int): Ns
    requires Listed(ns, name) && ns.names[name] != ns.names[PathnameParse(name).dir]
  {
    var info := PathnameParse(name);
    var p := ns.names[info.dir];
    var i := ns.names[name];
    StoreData(Ns(ns.inodes - {i}, ns.names - {name}, ns.data - {i}), p, Cut(Data(ns, p), info.base), now)
  }

  // ---------- What every database keeps ----------

  ghost predicate Distinct(names: seq<bytes>) {
    forall j, k | 0 <= j < k < |names| :: names[j] != names[k]
  }

  /** Names and inode numbers correspond one to one. */
  ghost predicate Indexed(ns: Ns) {
    && (forall n | n in ns.names :: ns.names[n] in ns.inodes && ns.inodes[ns.names[n]].name == n)
    && (forall i | i in ns.inodes :: ns.inodes[i].name in ns.names && ns.names[ns.inodes[i].name] == i)
  }

  /** A directory's data decodes to distinct components, each joined to its path an existing name. */
  ghost predicate ListingOk(dir: bytes, data: bytes, names: set<bytes>) {
    && Parse(data).whole
    && Distinct(Parse(data).names)
    && forall b | b in Parse(data).names :: ValidBase(b) && Join(dir, b) in names
  }

  ghost predicate InodeOk(i: Inum, ino: Inode, data: bytes, names: set<bytes>) {
    && (i == INO_ROOT || i > INO_RESERVED_LAST)
    && ValidInodeName(ino.name)
    && ino.size == |data| % TWO_32
    && (ino.isDir ==> ListingOk(ino.name, data, names))
  }

  ghost predicate Inv(ns: Ns) {
    && Indexed(ns)
    && ROOT in ns.names && ns.inodes[ns.names[ROOT]].isDir
    && ns.data.Keys <= ns.inodes.Keys
    && forall i | i in ns.inodes :: InodeOk(i, ns.inodes[i], Data(ns, i), ns.names.Keys)
  }

  /** Every inode but the root is listed by a live directory. */
  ghost predicate Rooted(ns: Ns, name: bytes) {
    Listed(ns, name) && ns.inodes[ns.names[PathnameParse(name).dir]].isDir
  }

  ghost predicate Tree(ns: Ns) {
    forall n | n in ns.names && n != ROOT :: Rooted(ns, n)
  }

  /** ensure_root on an empty database. */
  function Initial(now: int): Ns {
    InodePut(Ns(map[], map[], map[]), INO_ROOT, Inode(ROOT, true, 0, 1, now, now))
  }

  lemma InitialInv(now: int)
    ensures Inv(Initial(now)) && Tree(Initial(now))
  {
    assert Parse([]) == Listing([], true);
  }

  // ---------- Preservation ----------

  /** Rewriting an inode under its own name leaves the name index as it was. */
  lemma StoreEffect(ns: Ns, i: Inum, data: bytes, now: int)
    requires Indexed(ns) && i in ns.inodes
    ensures StoreData(ns, i, data, now).names == ns.names
    ensures Indexed(StoreData(ns, i, data, now))
  {
    assert StoreData(ns, i, data, now).names == ns.names;
  }

  lemma StoreKeepsInv(ns: Ns, i: Inum, data: bytes, now: int)
    requires Inv(ns) && i in ns.inodes
    requires ns.inodes[i].isDir ==> ListingOk(ns.inodes[i].name, data, ns.names.Keys)
    ensures Inv(StoreData(ns, i, data, now))
  {
    StoreEffect(ns, i, data, now);
    var ns' := StoreData(ns, i, data, now);
    forall j | j in ns'.inodes
      ensures InodeOk(j, ns'.inodes[j], Data(ns', j), ns'.names.Keys)
    {
      assert InodeOk(j, ns.inodes[j], Data(ns, j), ns.names.Keys);
    }
  }

  lemma MoreNames(dir: bytes, data: bytes, names: set<bytes>, more: set<bytes>)
    requires ListingOk(dir, data, names) && names <= more
    ensures ListingOk(dir, data, more)
  {
  }

  lemma EntryAppended(dir: bytes, data: bytes, base: bytes, names: set<bytes>)
    requires ListingOk(dir, data, names) && ValidBase(base) && |base| < 0x10000 && Join(dir, base) !in names
    ensures ListingOk(dir, data + Record(base), names + {Join(dir, base)})
  {
    AppendIsListAppend(data, base);
  }

  predicate Creatable(ns: Ns, name: bytes, i: Inum) {
    && ValidInodeName(name) && 2 <= |name| <= 256 && name !in ns.names && HasParent(ns, name)
    && i !in ns.inodes && i > INO_RESERVED_LAST
  }

  lemma CreateEffect(ns: Ns, name: bytes, isDir: bool, i: Inum, now: int)
    requires Indexed(ns) && Creatable(ns, name, i)
    ensures Indexed(Create(ns, name, isDir, i, now))
    ensures Create(ns, name, isDir, i, now).names == ns.names[name := i]
  {
    var p := ns.names[PathnameParse(name).dir];
    StoreEffect(ns, p, Data(ns, p) + Record(PathnameParse(name).base), now);
  }

  /** Creating a new name keeps the tables, whatever its parent is. */
  lemma CreateKeepsInv(ns: Ns, name: bytes, isDir: bool, i: Inum, now: int)
    requires Inv(ns) && Creatable(ns, name, i)
    ensures Inv(Create(ns, name, isDir, i, now))
  {
    hide InodeOk, Record;
    CreateEffect(ns, name, isDir, i, now);
    var ns' := Create(ns, name, isDir, i, now);
    assert ns'.names.Keys == ns.names.Keys + {name};
    forall j | j in ns'.inodes
      ensures InodeOk(j, ns'.inodes[j], Data(ns', j), ns'.names.Keys)
    {
      if j == i {
        EmptyOk(i, ns'.inodes[i], ns'.names.Keys);
      } else {
        EarlierInode(ns, name, isDir, i, now, j);
      }
    }
  }

  lemma EarlierInode(ns: Ns, name: bytes, isDir: bool, i: Inum, now: int, j: Inum)
    requires Inv(ns) && Creatable(ns, name, i) && j in ns.inodes
    ensures var ns' := Create(ns, name, isDir, i, now);
      j in ns'.inodes && InodeOk(j, ns'.inodes[j], Data(ns', j), ns.names.Keys + {name})
  {
    hide ListingOk, Record;
    var ns' := Create(ns, name, isDir, i, now);
    OkAfterCreate(j, ns.inodes[j], ns'.inodes[j], Data(ns, j), Data(ns', j), ns.names.Keys, name);
  }

  /** A new inode has no data, which is the empty listing. */
  lemma EmptyOk(i: Inum, ino: Inode, names: set<bytes>)
    requires i > INO_RESERVED_LAST && ValidInodeName(ino.name) && ino.size == 0
    ensures InodeOk(i, ino, [], names)
  {
    assert Parse([]) == Listing([], true);
  }

  lemma OkAfterCreate(j: Inum, ino: Inode, ino': Inode, data: bytes, data': bytes, names: set<bytes>, name: bytes)
    requires InodeOk(j, ino, data, names)
    requires ValidInodeName(name) && 2 <= |name| <= 256 && name !in names
    requires ino'.name == ino.name && ino'.isDir == ino.isDir && ino'.size == |data'| % TWO_32
    requires data' == data || (ino.name == PathnameParse(name).dir && data' == data + Record(PathnameParse(name).base))
    ensures InodeOk(j, ino', data', names + {name})
  {
    ParseThenJoin(name);
    if ino.isDir && data' == data {
      MoreNames(ino.name, data, names, names + {name});
    } else if ino.isDir {
      EntryAppended(ino.name, data, PathnameParse(name).base, names);
    }
  }

  lemma FewerNames(dir: bytes, data: bytes, names: set<bytes>, name: bytes)
    requires ListingOk(dir, data, names) && ValidInodeName(dir)
    requires ValidInodeName(name) && |name| >= 2 && PathnameParse(name).dir != dir
    ensures ListingOk(dir, data, names - {name})
  {
    forall b | b in Parse(data).names
      ensures Join(dir, b) != name
    {
      JoinThenParse(dir, b);
    }
  }

  lemma RemoveDistinct(names: seq<bytes>, base: bytes)
    requires Distinct(names) && base in names
    ensures Distinct(Remove(names, IndexOf(names, base)))
    ensures forall b :: b in Remove(names, IndexOf(names, base)) <==> b in names && b != base
  {
    var k := IndexOf(names, base);
    var rest := Remove(names, k);
    forall b | b in names && b != base
      ensures b in rest
    {
      var j :| 0 <= j < |names| && names[j] == b;
      assert b == rest[if j < k then j else j - 1];
    }
  }

  lemma EntryCut(dir: bytes, data: bytes, base: bytes, names: set<bytes>)
    requires ListingOk(dir, data, names) && ValidInodeName(dir) && base in Parse(data).names
    ensures ListingOk(dir, Cut(data, base), names - {Join(dir, base)})
    ensures forall b :: b in Parse(Cut(data, base)).names <==> b in Parse(data).names && b != base
  {
    CutIsListRemove(data, base);
    RemoveDistinct(Parse(data).names, base);
    forall b | b in Parse(data).names && b != base
      ensures Join(dir, b) != Join(dir, base)
    {
      JoinThenParse(dir, b);
      JoinThenParse(dir, base);
    }
  }

  predicate Deletable(ns: Ns, name: bytes) {
    ValidInodeName(name) && |name| >= 2 && Listed(ns, name)
  }

  lemma DeleteEffect(ns: Ns, name: bytes, now: int)
    requires Indexed(ns) && Deletable(ns, name)
    ensures ns.names[name] != ns.names[PathnameParse(name).dir]
    ensures Indexed(Delete(ns, name, now))
    ensures Delete(ns, name, now).names == ns.names - {name}
  {
    ParseThenJoin(name);
    var info := PathnameParse(name);
    var p, i := ns.names[info.dir], ns.names[name];
    var mid := Ns(ns.inodes - {i}, ns.names - {name}, ns.data - {i});
    assert Indexed(mid);
    StoreEffect(mid, p, Cut(Data(ns, p), info.base), now);
  }

  /** Deleting a listed name keeps the tables. */
  lemma DeleteKeepsInv(ns: Ns, name: bytes, now: int)
    requires Inv(ns) && Deletable(ns, name)
    ensures ns.names[name] != ns.names[PathnameParse(name).dir]
    ensures Inv(Delete(ns, name, now))
  {
    hide InodeOk;
    DeleteEffect(ns, name, now);
    var ns' := Delete(ns, name, now);
    assert ns'.names.Keys == ns.names.Keys - {name};
    forall j | j in ns'.inodes
      ensures InodeOk(j, ns'.inodes[j], Data(ns', j), ns'.names.Keys)
    {
      RemainingInode(ns, name, now, j);
    }
  }

  lemma RemainingInode(ns: Ns, name: bytes, now: int, j: Inum)
    requires Inv(ns) && Deletable(ns, name) && j in ns.inodes && j != ns.names[name]
    requires ns.names[name] != ns.names[PathnameParse(name).dir]
    ensures var ns' := Delete(ns, name, now);
      j in ns'.inodes && InodeOk(j, ns'.inodes[j], Data(ns', j), ns.names.Keys - {name})
  {
    hide ListingOk, Cut;
    var ns' := Delete(ns, name, now);
    OkAfterDelete(j, ns.inodes[j], ns'.inodes[j], Data(ns, j), Data(ns', j), ns.names.Keys, name);
  }

  lemma OkAfterDelete(j: Inum, ino: Inode, ino': Inode, data: bytes, data': bytes, names: set<bytes>, name: bytes)
    requires InodeOk(j, ino, data, names)
    requires ValidInodeName(name) && |name| >= 2
    requires ino'.name == ino.name && ino'.isDir == ino.isDir && ino'.size == |data'| % TWO_32
    requires if ino.name == PathnameParse(name).dir
             then PathnameParse(name).base in Parse(data).names && data' == Cut(data, PathnameParse(name).base)
             else data' == data
    ensures InodeOk(j, ino', data', names - {name})
  {
    ParseThenJoin(name);
    if ino.isDir && ino.name == PathnameParse(name).dir {
      EntryCut(ino.name, data, PathnameParse(name).base, names);
    } else if ino.isDir {
      FewerNames(ino.name, data, names, name);
    }
  }

  // ---------- The tree ----------

  /** In a tree a directory lists exactly its children. */
  lemma TreeListsChildren(ns: Ns, i: Inum, b: bytes)
    requires Inv(ns) && Tree(ns) && i in ns.inodes && ns.inodes[i].isDir
    ensures b in Children(ns, i) <==> ValidBase(b) && Join(ns.inodes[i].name, b) in ns.names
  {
    var dir := ns.inodes[i].name;
    assert InodeOk(i, ns.inodes[i], Data(ns, i), ns.names.Keys);
    if ValidBase(b) && Join(dir, b) in ns.names {
      JoinThenParse(dir, b);
      assert Rooted(ns, Join(dir, b));
    }
  }

  /** What a create does to the listing of each existing directory. */
  lemma CreateChildren(ns: Ns, name: bytes, isDir: bool, i: Inum, now: int, q: Inum)
    requires Inv(ns) && Creatable(ns, name, i) && q in ns.inodes && ns.inodes[q].isDir
    ensures Children(Create(ns, name, isDir, i, now), q) ==
      Children(ns, q) + Added(ns, name, q)
  {
    var info := PathnameParse(name);
    assert InodeOk(q, ns.inodes[q], Data(ns, q), ns.names.Keys);
    if q == ns.names[info.dir] {
      ParseThenJoin(name);
      AppendIsListAppend(Data(ns, q), info.base);
      assert Data(Create(ns, name, isDir, i, now), q) == Data(ns, q) + Record(info.base);
    } else {
      assert Data(Create(ns, name, isDir, i, now), q) == Data(ns, q);
    }
  }

  /** `ns'` has one name more than `ns`, and only its parent's listing has changed, by that entry. */
  ghost predicate Grown(ns: Ns, ns': Ns, name: bytes, i: Inum) {
    && HasParent(ns, name)
    && Indexed(ns') && ns'.names == ns.names[name := i]
    && (forall q | q in ns.inodes :: q in ns'.inodes && ns'.inodes[q].isDir == ns.inodes[q].isDir)
    && (forall q | q in ns.inodes && ns.inodes[q].isDir :: Children(ns', q) == Children(ns, q) + Added(ns, name, q))
  }

  function Added(ns: Ns, name: bytes, q: Inum): seq<bytes>
    requires HasParent(ns, name)
  {
    if q == ns.names[PathnameParse(name).dir] then [PathnameParse(name).base] else []
  }

  lemma CreateGrows(ns: Ns, name: bytes, isDir: bool, i: Inum, now: int)
    requires Inv(ns) && Creatable(ns, name, i)
    ensures Grown(ns, Create(ns, name, isDir, i, now), name, i)
  {
    CreateEffect(ns, name, isDir, i, now);
    forall q | q in ns.inodes && ns.inodes[q].isDir
      ensures Children(Create(ns, name, isDir, i, now), q) == Children(ns, q) + Added(ns, name, q)
    {
      CreateChildren(ns, name, isDir, i, now, q);
    }
  }

  /** A create keeps the tree exactly when the parent it names is a directory. */
  lemma CreateKeepsTree(ns: Ns, name: bytes, isDir: bool, i: Inum, now: int)
    requires Inv(ns) && Tree(ns) && Creatable(ns, name, i)
    ensures Tree(Create(ns, name, isDir, i, now)) <==> ns.inodes[ns.names[PathnameParse(name).dir]].isDir
  {
    CreateGrows(ns, name, isDir, i, now);
    ParseThenJoin(name);
    GrownTree(ns, Create(ns, name, isDir, i, now), name, i);
  }

  lemma GrownTree(ns: Ns, ns': Ns, name: bytes, i: Inum)
    requires Indexed(ns) && Tree(ns) && name !in ns.names && name != ROOT && PathnameParse(name).dir != name
    requires Grown(ns, ns', name, i)
    ensures Tree(ns') <==> ns.inodes[ns.names[PathnameParse(name).dir]].isDir
  {
    hide PathnameParse;
    var p := ns.names[PathnameParse(name).dir];
    if ns.inodes[p].isDir {
      forall n | n in ns'.names && n != ROOT
        ensures Rooted(ns', n)
      {
        if n != name {
          assert Rooted(ns, n);
          SameParent(ns, ns', n);
        }
      }
    } else {
      assert !Rooted(ns', name);
    }
  }

  /** A name stays rooted when its parent is still the same directory and still lists it. */
  lemma SameParent(ns: Ns, ns': Ns, n: bytes)
    requires Rooted(ns, n) && Indexed(ns')
    requires n in ns'.names && PathnameParse(n).dir in ns'.names
    requires ns'.names[PathnameParse(n).dir] == ns.names[PathnameParse(n).dir]
    requires ns.names[PathnameParse(n).dir] in ns'.inodes && ns'.inodes[ns.names[PathnameParse(n).dir]].isDir
    requires PathnameParse(n).base in Children(ns', ns.names[PathnameParse(n).dir])
    ensures Rooted(ns', n)
  {
  }

  /** What a delete does to the listing of each remaining directory. */
  lemma DeleteChildren(ns: Ns, name: bytes, now: int, q: Inum, b: bytes)
    requires Inv(ns) && Deletable(ns, name) && q in ns.inodes && ns.inodes[q].isDir && q != ns.names[name]
    ensures ns.names[name] != ns.names[PathnameParse(name).dir]
    ensures b in Children(Delete(ns, name, now), q) <==>
      b in Children(ns, q) && !(q == ns.names[PathnameParse(name).dir] && b == PathnameParse(name).base)
  {
    DeleteEffect(ns, name, now);
    var info := PathnameParse(name);
    assert InodeOk(q, ns.inodes[q], Data(ns, q), ns.names.Keys);
    if q == ns.names[info.dir] {
      EntryCut(ns.inodes[q].name, Data(ns, q), info.base, ns.names.Keys);
      assert Data(Delete(ns, name, now), q) == Cut(Data(ns, q), info.base);
    } else {
      assert Data(Delete(ns, name, now), q) == Data(ns, q);
    }
  }

  /** `ns'` has lost that name, and no remaining directory has lost an entry other than it. */
  ghost predicate Pruned(ns: Ns, ns': Ns, name: bytes)
    requires Listed(ns, name)
  {
    && Indexed(ns') && ns'.names == ns.names - {name}
    && (forall q | q in ns.inodes && q != ns.names[name] ::
          q in ns'.inodes && ns'.inodes[q].isDir == ns.inodes[q].isDir)
    && (forall q, b | q in ns.inodes && ns.inodes[q].isDir && q != ns.names[name] && b in Children(ns, q)
          && !(q == ns.names[PathnameParse(name).dir] && b == PathnameParse(name).base) :: b in Children(ns', q))
  }

  lemma DeletePrunes(ns: Ns, name: bytes, now: int)
    requires Inv(ns) && Deletable(ns, name)
    ensures ns.names[name] != ns.names[PathnameParse(name).dir]
    ensures Pruned(ns, Delete(ns, name, now), name)
  {
    DeleteEffect(ns, name, now);
    forall q, b | q in ns.inodes && ns.inodes[q].isDir && q != ns.names[name] && b in Children(ns, q)
                  && !(q == ns.names[PathnameParse(name).dir] && b == PathnameParse(name).base)
      ensures b in Children(Delete(ns, name, now), q)
    {
      DeleteChildren(ns, name, now, q, b);
    }
  }

  /** Deleting a file or an empty directory keeps the tree. */
  lemma DeleteKeepsTree(ns: Ns, name: bytes, now: int)
    requires Inv(ns) && Tree(ns) && Deletable(ns, name)
    requires ns.inodes[ns.names[name]].isDir ==> Data(ns, ns.names[name]) == []
    ensures ns.names[name] != ns.names[PathnameParse(name).dir]
    ensures Tree(Delete(ns, name, now))
  {
    DeletePrunes(ns, name, now);
    PrunedTree(ns, Delete(ns, name, now), name);
  }

  lemma PrunedTree(ns: Ns, ns': Ns, name: bytes)
    requires Inv(ns) && Tree(ns) && Deletable(ns, name) && Pruned(ns, ns', name)
    requires ns.inodes[ns.names[name]].isDir ==> Data(ns, ns.names[name]) == []
    ensures Tree(ns')
  {
    forall n | n in ns'.names && n != ROOT
      ensures Rooted(ns', n)
    {
      assert Rooted(ns, n);
      NotTheDeleted(ns, name, n);
      SameParent(ns, ns', n);
    }
  }

  /** Nothing lives under a deletable name, and no other name has its entry. */
  lemma NotTheDeleted(ns: Ns, name: bytes, n: bytes)
    requires Inv(ns) && Deletable(ns, name) && Rooted(ns, n) && n != name && n != ROOT
    requires ns.inodes[ns.names[name]].isDir ==> Data(ns, ns.names[name]) == []
    ensures PathnameParse(n).dir != name
    ensures PathnameParse(n) != PathnameParse(name)
  {
    assert Parse([]) == Listing([], true);
    assert InodeOk(ns.names[n], ns.inodes[ns.names[n]], Data(ns, ns.names[n]), ns.names.Keys);
    assert |n| >= 2;
    ParseThenJoin(n);
    ParseThenJoin(name);
  }
}
