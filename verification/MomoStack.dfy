module MomoStack {

  // The momo filesystem on top of the content-addressed store: the writes of `MomoLog`
  // carried out by the operations of `Cas`, with garbage collection in between. As long
  // as the writes are right, each of them is one that the store can serve faithfully,
  // and what the store holds under the keys of paths is the filesystem's tree.

  import opened MomoTree
  import opened MomoLog
  import Cas
  import MomoFs

  type Digest = imap<Content, string>

  /** The keys of the directories and files in use, and the encoding of manifests. */
  datatype Naming = Naming(dir: map<Path, string>, obj: map<Path, string>, encode: map<Manifest, Content>)

  predicate Usable(name: string) {
    Cas.KeyOk(name) && |name| <= Cas.MAX_NAME_LENGTH
  }

  predicate NamedAt(k: Naming, p: Path) {
    p in k.dir && p in k.obj && Usable(k.dir[p]) && Usable(k.obj[p])
  }

  predicate Distinct(k: Naming, p: Path, q: Path) {
    NamedAt(k, p) && NamedAt(k, q) ==>
      k.dir[p] != k.obj[q] && (p != q ==> k.dir[p] != k.dir[q] && k.obj[p] != k.obj[q])
  }

  /** Different paths have different keys, and directories others than files. */
  ghost predicate NamingOk(k: Naming) {
    forall p, q :: Distinct(k, p, q)
  }

  predicate HashUsable(hash: string) {
    Cas.KeyOk(hash) && !Cas.HasPathTraversalChars(hash)
  }

  /** The write can be expressed: its path has keys, its manifest an encoding. */
  ghost predicate Covered(k: Naming, digest: Digest, x: Write) {
    && NamedAt(k, x.path)
    && (x.PutDir? ==>
          && x.manifest in k.encode && k.encode[x.manifest] in digest
          && HashUsable(digest[k.encode[x.manifest]]))
    && (x.PutFile? ==> HashUsable(x.hash))
  }

  ghost predicate AllCovered(k: Naming, digest: Digest, l: Log) {
    l.Then? ==> AllCovered(k, digest, l.log) && Covered(k, digest, l.write)
  }

  /** What the surroundings of a write decide: the clock, the normalized path, whether
      an orphaned blob can be deleted, and the garbage collection just before. */
  datatype Env = Env(now: int, path: Cas.RemotePath, evicts: bool, reached: set<string>, evicted: set<string>,
                     cutoff: int)

  function Bytes(c: Option<Content>): Cas.Option<Content> {
    match c
    case None => Cas.None
    case Some(bytes) => Cas.Some(bytes)
  }

  /** The operation of the store for a write. */
  ghost function OpOf(k: Naming, digest: Digest, x: Write, env: Env): Cas.Op
    requires Covered(k, digest, x)
  {
    match x
    case PutDir(p, m) =>
      Cas.Put(Cas.PutArgs(k.dir[p], digest[k.encode[m]], |k.encode[m]|, Cas.NoPath, Cas.Some(k.encode[m]), true, true,
          env.now))
    case DropDir(p) => Cas.Delete(k.dir[p], env.now, env.evicts)
    case PutFile(p, h, n, c) => Cas.Put(Cas.PutArgs(k.obj[p], h, n, env.path, Bytes(c), true, true, env.now))
    case DropFile(p) => Cas.Delete(k.obj[p], env.now, env.evicts)
  }

  ghost function Collected(db: Cas.Db, presence: bool, env: Env): Cas.Db {
    Cas.Exec(Cas.Exec(db, presence, Cas.Sweep(env.reached, env.evicted)), presence, Cas.Expire(env.cutoff))
  }

  /** The store after the writes of `l`; `env` tells the surroundings of each. */
  ghost function ExecLog(presence: bool, k: Naming, digest: Digest, l: Log, env: imap<Log, Env>): Cas.Db
    requires AllCovered(k, digest, l) && forall l' :: l' in env
  {
    match l
    case Empty => Cas.Db(map[], map[], map[], map[], map[], map[])
    case Then(before, x) =>
      Cas.Exec(Collected(ExecLog(presence, k, digest, before, env), presence, env[l]), presence,
          OpOf(k, digest, x, env[l]))
  }

  /** The keys of `p` are mapped as the tree has it. */
  ghost predicate BackedAt(db: Cas.Db, s: Store, k: Naming, digest: Digest, p: Path) {
    && (p in s.dirs || p in s.files ==> NamedAt(k, p))
    && (p in s.dirs ==> s.dirs[p] in k.encode && k.encode[s.dirs[p]] in digest)
    && (NamedAt(k, p) ==>
          && (k.dir[p] in db.namespace <==> p in s.dirs)
          && (p in s.dirs ==> db.namespace[k.dir[p]] == digest[k.encode[s.dirs[p]]])
          && (k.obj[p] in db.namespace <==> p in s.files) && (p in s.files ==> db.namespace[k.obj[p]] == s.files[p]))
  }

  ghost predicate Backed(db: Cas.Db, s: Store, k: Naming, digest: Digest) {
    Cas.Valid(db) && Cas.Addressed(db, digest) && forall p :: BackedAt(db, s, k, digest, p)
  }

  lemma {:induction false} CollectedBacked(db: Cas.Db, presence: bool, s: Store, k: Naming, digest: Digest, env: Env)
    requires Backed(db, s, k, digest)
    ensures Backed(Collected(db, presence, env), s, k, digest)
  {
    var sweep, expire := Cas.Sweep(env.reached, env.evicted), Cas.Expire(env.cutoff);
    var db1 := Cas.Exec(db, presence, sweep);
    Cas.StepRefines(db, presence, digest, sweep);
    Cas.NamedKept(db, presence, digest, sweep);
    Cas.StepRefines(db1, presence, digest, expire);
    Cas.NamedKept(db1, presence, digest, expire);
    var db2 := Collected(db, presence, env);
    forall p ensures BackedAt(db2, s, k, digest, p) {
      assert BackedAt(db, s, k, digest, p);
    }
  }

  /** The bytes behind a hash that some path refers to are stored, and of the size
      that the hash stands for. */
  lemma {:induction false} BytesThere(db: Cas.Db, s: Store, k: Naming, digest: Digest, hash: string, size: nat)
    requires Backed(db, s, k, digest) && Stored(s, hash) && TrueSize(digest, hash, size)
    ensures hash in db.blobs && |db.blobs[hash]| == size
  {
    var p :| p in s.files && s.files[p] == hash;
    assert BackedAt(db, s, k, digest, p);
    assert Cas.NameOk(db, k.obj[p]) && Cas.HashOk(db, hash);
    var c :| c in digest && digest[c] == hash && |c| == size;
  }

  lemma {:induction false} RightIsProper(db: Cas.Db, s: Store, k: Naming, digest: Digest, x: Write, env: Env)
    requires Backed(db, s, k, digest) && Right(digest, s, x) && Covered(k, digest, x)
    ensures Cas.Proper(db, digest, OpOf(k, digest, x, env))
  {
    if x.PutFile? && x.content.None? {
      BytesThere(db, s, k, digest, x.hash, x.size);
    }
  }

  /** The operation of a write succeeds; this is what it does to the names. */
  lemma {:induction false} NamesAfter(db: Cas.Db, presence: bool, k: Naming, digest: Digest, x: Write, env: Env)
    requires Covered(k, digest, x) && !env.path.Rejected?
    ensures var op := OpOf(k, digest, x, env);
      && (op.Put? ==> Cas.AfterPut(db, presence, op.args).1 == Cas.Ok)
      && Cas.Exec(db, presence, op).namespace ==
         if op.Put? then db.namespace[op.args.name := op.args.hash] else db.namespace - {op.name}
  {}

  lemma {:induction false} BackedNext(db: Cas.Db, db': Cas.Db, s: Store, k: Naming, digest: Digest, x: Write, env: Env,
                                      p: Path)
    requires NamingOk(k) && Covered(k, digest, x) && BackedAt(db, s, k, digest, p)
    requires var op := OpOf(k, digest, x, env);
      db'.namespace == if op.Put? then db.namespace[op.args.name := op.args.hash] else db.namespace - {op.name}
    ensures BackedAt(db', Applied(s, x), k, digest, p)
  {
    assert Distinct(k, p, x.path) && Distinct(k, x.path, p);
  }

  /** A right write keeps the tree backed. */
  lemma {:induction false} WriteBacked(db: Cas.Db, presence: bool, s: Store, k: Naming, digest: Digest, x: Write,
                                       env: Env)
    requires NamingOk(k) && Backed(db, s, k, digest) && Right(digest, s, x) && Covered(k, digest, x) &&
             !env.path.Rejected?
    ensures Backed(Cas.Exec(db, presence, OpOf(k, digest, x, env)), Applied(s, x), k, digest)
  {
    var op := OpOf(k, digest, x, env);
    var db' := Cas.Exec(db, presence, op);
    RightIsProper(db, s, k, digest, x, env);
    Cas.StepRefines(db, presence, digest, op);
    Cas.NamedKept(db, presence, digest, op);
    NamesAfter(db, presence, k, digest, x, env);
    forall p ensures BackedAt(db', Applied(s, x), k, digest, p) {
      assert BackedAt(db, s, k, digest, p);
      BackedNext(db, db', s, k, digest, x, env, p);
    }
  }

  /** Whatever right writes a filesystem issues, from an empty store on and with any
      garbage collection in between: each is a proper operation of the store, and
      the store holds the tree. */
  lemma {:induction false} LogBacked(presence: bool, k: Naming, digest: Digest, l: Log, env: imap<Log, Env>)
    requires NamingOk(k) && Cas.Injective(digest) && (forall l' :: l' in env && !env[l'].path.Rejected?)
    requires AllRight(digest, l) && AllCovered(k, digest, l)
    ensures Backed(ExecLog(presence, k, digest, l, env), Replay(l), k, digest)
    ensures l.Then? ==>
      var db := Collected(ExecLog(presence, k, digest, l.log, env), presence, env[l]);
      Cas.Addressed(db, digest) && Cas.Proper(db, digest, OpOf(k, digest, l.write, env[l]))
  {
    if l.Then? {
      LogBacked(presence, k, digest, l.log, env);
      var before, s := ExecLog(presence, k, digest, l.log, env), Replay(l.log);
      CollectedBacked(before, presence, s, k, digest, env[l]);
      var db := Collected(before, presence, env[l]);
      RightIsProper(db, s, k, digest, l.write, env[l]);
      WriteBacked(db, presence, s, k, digest, l.write, env[l]);
    } else {
      var db := ExecLog(presence, k, digest, l, env);
      forall h ensures Cas.HashOk(db, h) {}
      forall p ensures BackedAt(db, Replay(l), k, digest, p) {}
    }
  }

  /** Reading a file of the tree gives the bytes its hash stands for. */
  lemma {:induction false} FileReadsBack(db: Cas.Db, s: Store, k: Naming, digest: Digest, p: Path, c: Content)
    requires Backed(db, s, k, digest) && p in s.files && c in digest && s.files[p] == digest[c]
    ensures NamedAt(k, p) && var r := Cas.Lookup(db, k.obj[p]); r.Found? && r.content == c && r.size == |c|
  {
    assert BackedAt(db, s, k, digest, p);
    assert Cas.NameOk(db, k.obj[p]) && Cas.HashOk(db, s.files[p]);
    Cas.GetReadsView(db, k.obj[p]);
  }

  /** Reading a directory of the tree gives its manifest. */
  lemma {:induction false} DirReadsBack(db: Cas.Db, s: Store, k: Naming, digest: Digest, p: Path)
    requires Backed(db, s, k, digest) && p in s.dirs
    ensures NamedAt(k, p) && s.dirs[p] in k.encode
    ensures var r := Cas.Lookup(db, k.dir[p]); r.Found? && r.content == k.encode[s.dirs[p]]
  {
    assert BackedAt(db, s, k, digest, p);
    assert Cas.NameOk(db, k.dir[p]) && Cas.HashOk(db, db.namespace[k.dir[p]]);
    Cas.GetReadsView(db, k.dir[p]);
  }

  /** What FS.Run leaves after good operations, on top of the store that executed its
      writes: every file listed in a directory reads back, and its bytes have the hash
      and the size of its entry. */
  lemma {:induction false} ListedReadsBack(fs: MomoFs.FS, presence: bool, k: Naming, env: imap<Log, Env>, p: Path,
                                           e: Entry)
    requires fs.Valid() && fs.Clean() && WellFormed(fs.dirs, fs.files)
    requires NamingOk(k) && Cas.Injective(fs.digest) && (forall l :: l in env && !env[l].path.Rejected?)
    requires AllCovered(k, fs.digest, fs.log)
    requires p != [] && EntryAt(fs.dirs, p) == Some(e) && e.kind.File?
    ensures NamedAt(k, p)
    ensures var r := Cas.Lookup(ExecLog(presence, k, fs.digest, fs.log, env), k.obj[p]);
            r.Found? && fs.hashOf(r.content) == e.hash && |r.content| == r.size == e.size
  {
    LogBacked(presence, k, fs.digest, fs.log, env);
    assert NodeOk(fs.dirs, fs.files, p);
    fs.ReadSized(Parent(p));
    SizedEntry(fs.digest, ReadManifest(fs.dirs, Parent(p)).value, Base(p));
    var c: Content :| c in fs.digest && fs.digest[c] == e.hash && |c| == e.size;
    FileReadsBack(ExecLog(presence, k, fs.digest, fs.log, env), Store(fs.dirs, fs.files), k, fs.digest, p, c);
  }

  // ---- a reference for every link ----

  ghost function Links(s: Store, hash: string): set<Path> {
    set p <- s.files | s.files[p] == hash
  }

  ghost function KeysOf(k: Naming, ps: set<Path>): set<string> {
    set p <- ps | NamedAt(k, p) :: k.obj[p]
  }

  lemma {:induction false} AsManyKeys(k: Naming, ps: set<Path>)
    requires NamingOk(k) && forall p <- ps :: NamedAt(k, p)
    ensures |KeysOf(k, ps)| == |ps|
  {
    if ps != {} {
      var p :| p in ps;
      AsManyKeys(k, ps - {p});
      forall q <- ps - {p} ensures k.obj[q] != k.obj[p] {
        assert Distinct(k, p, q);
      }
      assert KeysOf(k, ps) == KeysOf(k, ps - {p}) + {k.obj[p]};
    }
  }

  /** The count of a hash covers every path that links to it. */
  lemma {:induction false} LinksCounted(db: Cas.Db, s: Store, k: Naming, digest: Digest, hash: string)
    requires NamingOk(k) && Backed(db, s, k, digest) && Stored(s, hash)
    ensures hash in db.objects && |Links(s, hash)| <= db.objects[hash].refCount
  {
    var p :| p in s.files && s.files[p] == hash;
    forall q <- Links(s, hash) ensures NamedAt(k, q) && k.obj[q] in Cas.NamesOf(db, hash) {
      assert BackedAt(db, s, k, digest, q);
    }
    assert p in Links(s, hash);
    assert Cas.NameOk(db, k.obj[p]) && Cas.HashOk(db, hash);
    AsManyKeys(k, Links(s, hash));
    Fewer(KeysOf(k, Links(s, hash)), Cas.NamesOf(db, hash));
  }

  lemma {:induction false} Fewer(a: set<string>, b: set<string>)
    requires a <= b
    ensures |a| <= |b|
  {
    assert b == a + (b - a);
  }
}
