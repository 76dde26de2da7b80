module Cas {

  // The metadata of the content-addressed store: src/storage/storage.go (Put, Get,
  // Delete) and src/storage/gc.go (the sweeps and ApplyTombstone).
  //
  // The bbolt buckets are maps and a transaction changes them all or not at all;
  // the blob backend is a map from hash to bytes whose operations may fail. Each
  // method of `CASStore` is proved against a function on the whole state, and the
  // refinement and convergence theorems are about those functions.

  type Content = seq<bv8>

  datatype Option<+T> = None | Some(value: T)

  /** An entry of the objects bucket; `legacy` marks the 24-byte form, the only
      one the sweep looks at and one that is never written again. */
  datatype Meta = Meta(size: int, refCount: int, deletedAt: int, legacy: bool)

  datatype Db = Db(namespace: map<string, string>, objects: map<string, Meta>, tombstones: map<string, int>,
                   paths: map<string, string>, modTimes: map<string, int>, blobs: map<string, Content>)

  datatype Status = Ok | Einval | Eio | Enametoolong

  const MAX_NAME_LENGTH := 64
  const MAX_KEY_SIZE := 32768

  /** What bbolt accepts as a key. */
  predicate KeyOk(k: string) {
    0 < |k| <= MAX_KEY_SIZE
  }

  predicate HasPathTraversalChars(s: string) {
    '/' in s || '\\' in s || s == ".."
  }

  /** The outcome of normalizing the remote path of a Put. */
  datatype RemotePath = NoPath | Normalized(path: string) | Rejected

  /** The arguments of Put and what its environment does: `stores` and `commits`
      say whether the backend takes the blob and the durability barrier passes. */
  datatype PutArgs = PutArgs(name: string, hash: string, size: int, path: RemotePath, content: Option<Content>,
                             stores: bool, commits: bool, now: int)

  /** The references counted for a hash. */
  function References(db: Db, hash: string): int {
    if hash in db.objects then db.objects[hash].refCount else 0
  }

  // ---- the operations as functions of the state ----

  /** Put takes the blob as present: its metadata is, and its bytes are when the
      backend can tell. */
  predicate Present(db: Db, presence: bool, hash: string) {
    hash in db.objects && (presence ==> hash in db.blobs)
  }

  /** The metadata transaction of Put, whose error leaves everything as it was. */
  function PutTx(db: Db, a: PutArgs): (Db, Status) {
    if !KeyOk(a.name) || !KeyOk(a.hash) then (db, Eio)
    else if |a.name| > MAX_NAME_LENGTH then (db, Enametoolong)
    else if a.path.Rejected? then (db, Einval)
    else
      var meta := if a.hash in db.objects
                  then db.objects[a.hash].(refCount := db.objects[a.hash].refCount + 1, legacy := false)
                  else Meta(a.size, 1, 0, false);
      (db.(namespace := db.namespace[a.name := a.hash],
           objects := db.objects[a.hash := meta],
           tombstones := db.tombstones - {a.name},
           modTimes := db.modTimes[a.name := a.now],
           paths := if a.path.Normalized? then db.paths[a.name := a.path.path] else db.paths), Ok)
  }

  function AfterPut(db: Db, presence: bool, a: PutArgs): (Db, Status) {
    if HasPathTraversalChars(a.hash) then (db, Einval)
    else if Present(db, presence, a.hash) || a.content.None? then PutTx(db, a)
    else if !a.stores then (db, Eio)
    else
      var db' := db.(blobs := db.blobs[a.hash := a.content.value]);
      if !a.commits then (db', Eio) else PutTx(db', a)
  }

  /** The hash whose last reference goes away with `name`. */
  function Orphan(db: Db, name: string): Option<string> {
    if name in db.namespace && db.namespace[name] in db.objects && db.objects[db.namespace[name]].refCount <= 1 then
      Some(db.namespace[name])
    else None
  }

  /** The objects bucket with one reference to the hash of `name` less. */
  function Dereferenced(db: Db, name: string, at: int): map<string, Meta> {
    if name in db.namespace && db.namespace[name] in db.objects then
      var h := db.namespace[name];
      var m := db.objects[h];
      db.objects[h := if m.refCount <= 1 then Meta(m.size, 0, at, false)
                      else m.(refCount := m.refCount - 1, legacy := false)]
    else db.objects
  }

  /** A name goes: its tombstone is written, its hash loses a reference, and an
      orphaned blob is deleted together with its metadata if the backend manages. */
  function AfterRemoval(db: Db, name: string, at: int, evicts: bool): Db {
    if !KeyOk(name) then db
    else
      var orphan := Orphan(db, name);
      var objects := Dereferenced(db, name, at);
      Db(db.namespace - {name},
         if orphan.Some? && evicts then objects - {orphan.value} else objects,
         db.tombstones[name := at], db.paths - {name}, db.modTimes - {name},
         if orphan.Some? && evicts then db.blobs - {orphan.value} else db.blobs)
  }

  /** A remote tombstone counts only if it is newer than the one here. */
  function AfterTombstone(db: Db, name: string, at: int, evicts: bool): Db {
    if name in db.tombstones && db.tombstones[name] >= at then db else AfterRemoval(db, name, at, evicts)
  }

  predicate Sweepable(db: Db, hash: string) {
    hash in db.objects && db.objects[hash].legacy && db.objects[hash].refCount <= 0
  }

  /** The blob sweep: `reached` are the entries the cursor comes to (deleting
      under a cursor may make it skip some), `evicted` the blobs the backend
      manages to delete. */
  function AfterSweep(db: Db, reached: set<string>, evicted: set<string>): Db {
    var orphans := set h <- reached | Sweepable(db, h);
    db.(objects := db.objects - orphans, blobs := db.blobs - (orphans * evicted))
  }

  function AfterExpiry(db: Db, cutoff: int): Db {
    db.(tombstones := map n <- db.tombstones | db.tombstones[n] >= cutoff :: db.tombstones[n])
  }

  datatype Answer = Found(content: Content, hash: string, size: int, path: string, modTime: int) | NotFound | BadMessage

  // ---- the store ----

  class CASStore {
    var namespace: map<string, string>
    var objects: map<string, Meta>
    var tombstones: map<string, int>
    var paths: map<string, string>
    var modTimes: map<string, int>
    var blobs: map<string, Content>
    /** Whether the backend can say if it has a blob. */
    const presence: bool

    constructor (presence: bool)
      ensures this.presence == presence && State() == Db(map[], map[], map[], map[], map[], map[]) && Valid(State())
    {
      this.presence := presence;
      namespace, objects, tombstones, paths, modTimes, blobs := map[], map[], map[], map[], map[], map[];
    }

    ghost function State(): Db
      reads this
    {
      Db(namespace, objects, tombstones, paths, modTimes, blobs)
    }

    /** A Put that succeeds maps its name, with the time and the path it was given, and
        adds one reference to its hash; one that fails leaves the metadata alone. */
    method Put(a: PutArgs) returns (s: Status)
      modifies this
      ensures (State(), s) == AfterPut(old(State()), presence, a)
      ensures s == Ok <==>
                && '/' !in a.hash && '\\' !in a.hash && a.hash != ".." && 0 < |a.hash| <= 32768
                && 0 < |a.name| <= 64
                && !a.path.Rejected?
                && (old(Present(State(), presence, a.hash)) || a.content.None? || (a.stores && a.commits))
      ensures s != Ok ==> State() == old(State()).(blobs := blobs)
      ensures blobs == if a.content.Some? && a.stores && !old(Present(State(), presence, a.hash)) &&
                          '/' !in a.hash && '\\' !in a.hash && a.hash != ".."
                       then old(blobs)[a.hash := a.content.value]
                       else old(blobs)
      ensures s == Ok ==>
                && namespace == old(namespace)[a.name := a.hash] && modTimes == old(modTimes)[a.name := a.now]
                && paths == (if a.path.Normalized? then old(paths)[a.name := a.path.path] else old(paths))
                && tombstones == old(tombstones) - {a.name}
                && a.hash in objects && References(State(), a.hash) == old(References(State(), a.hash)) + 1
                && forall h :: h != a.hash ==> References(State(), h) == old(References(State(), h))
    {
      if HasPathTraversalChars(a.hash) {
        return Einval;
      }
      var exists_ := a.hash in objects;
      if exists_ && presence {
        exists_ := a.hash in blobs;
      }
      if !exists_ && a.content.Some? {
        if !a.stores {
          return Eio;
        }
        blobs := blobs[a.hash := a.content.value];
        if !a.commits {
          return Eio;
        }
      }
      s := UpdateMetadata(a);
    }

    method UpdateMetadata(a: PutArgs) returns (s: Status)
      modifies this
      ensures (State(), s) == PutTx(old(State()), a)
    {
      if !KeyOk(a.name) || !KeyOk(a.hash) {
        return Eio;
      }
      if |a.name| > MAX_NAME_LENGTH {
        return Enametoolong;
      }
      if a.path.Rejected? {
        return Einval;
      }
      namespace := namespace[a.name := a.hash];
      if a.hash in objects {
        var m := objects[a.hash];
        objects := objects[a.hash := m.(refCount := m.refCount + 1, legacy := false)];
      } else {
        objects := objects[a.hash := Meta(a.size, 1, 0, false)];
      }
      tombstones := tombstones - {a.name};
      modTimes := modTimes[a.name := a.now];
      if a.path.Normalized? {
        paths := paths[a.name := a.path.path];
      }
      s := Ok;
    }

    /** The transaction that Delete and ApplyTombstone share, and the deletion of
        the orphaned blob after it. */
    method Unlink(name: string, at: int, evicts: bool) returns (s: Status)
      modifies this
      ensures State() == AfterRemoval(old(State()), name, at, evicts)
      ensures s == if KeyOk(name) then Ok else Eio
    {
      if !KeyOk(name) {
        return Eio;
      }
      var orphan: Option<string> := None;
      tombstones := tombstones[name := at];
      if name in namespace {
        var h := namespace[name];
        if h in objects {
          var m := objects[h];
          m := m.(refCount := m.refCount - 1, legacy := false);
          if m.refCount <= 0 {
            m := m.(refCount := 0, deletedAt := at);
            orphan := Some(h);
          }
          objects := objects[h := m];
        }
      }
      namespace := namespace - {name};
      paths := paths - {name};
      modTimes := modTimes - {name};
      if orphan.Some? && evicts {
        blobs := blobs - {orphan.value};
        objects := objects - {orphan.value};
      }
      s := Ok;
    }

    /** The name goes and leaves a tombstone; the hash it was mapped to loses one
        reference, and with the last one its bytes and its entry if the backend manages. */
    method Delete(name: string, now: int, evicts: bool) returns (s: Status)
      modifies this
      ensures State() == AfterRemoval(old(State()), name, now, evicts)
      ensures s == if KeyOk(name) then Ok else Eio
      ensures s != Ok ==> State() == old(State())
      ensures s == Ok ==>
                && namespace == old(namespace) - {name} && tombstones == old(tombstones)[name := now]
                && paths == old(paths) - {name} && modTimes == old(modTimes) - {name}
      ensures forall h :: !(s == Ok && name in old(namespace) && old(namespace)[name] == h) ==>
                SameHash(State(), old(State()), h)
      ensures s == Ok && name in old(namespace) && old(namespace)[name] in old(objects) ==>
                var h, count := old(namespace)[name], old(objects)[old(namespace)[name]].refCount;
                if count <= 1 && evicts then h !in objects && blobs == old(blobs) - {h}
                else && blobs == old(blobs) && h in objects && objects[h].size == old(objects)[h].size
                     && objects[h].refCount == (if count <= 1 then 0 else count - 1)
                     && objects[h].deletedAt == (if count <= 1 then now else old(objects)[h].deletedAt)
    {
      s := Unlink(name, now, evicts);
    }

    method ApplyTombstone(name: string, deletedAt: int, evicts: bool) returns (s: Status)
      modifies this
      ensures State() == AfterTombstone(old(State()), name, deletedAt, evicts)
      ensures s == if (name in old(tombstones) && old(tombstones)[name] >= deletedAt) || KeyOk(name) then Ok else Eio
    {
      if name in tombstones && tombstones[name] >= deletedAt {
        return Ok;
      }
      s := Unlink(name, deletedAt, evicts);
    }

    method SweepOrphanedBlobs(reached: set<string>, evicted: set<string>)
      modifies this
      ensures State() == AfterSweep(old(State()), reached, evicted)
      ensures forall h :: h in objects <==>
                h in old(objects) && !(h in reached && old(objects)[h].legacy && old(objects)[h].refCount <= 0)
      ensures forall h <- objects :: objects[h] == old(objects)[h]
      ensures forall h :: h in blobs <==> h in old(blobs) && !(h in old(objects) && h !in objects && h in evicted)
      ensures forall h <- blobs :: blobs[h] == old(blobs)[h]
      ensures State() == old(State()).(objects := objects, blobs := blobs)
    {
      ghost var before := State();
      var orphans: set<string> := {};
      var todo := reached;
      while todo != {}
        invariant todo <= reached && orphans <= reached - todo
        invariant forall h <- reached - todo :: h in orphans <==> Sweepable(before, h)
        invariant objects == before.objects - orphans
        invariant State() == before.(objects := objects)
      {
        var hash :| hash in todo;
        if hash in objects && objects[hash].legacy && objects[hash].refCount <= 0 {
          orphans := orphans + {hash};
          objects := objects - {hash};
        }
        todo := todo - {hash};
      }
      assert orphans == set h <- reached | Sweepable(before, h);
      blobs := blobs - (orphans * evicted);
    }

    method SweepExpiredTombstones(now: int, retention: int)
      modifies this
      ensures State() == AfterExpiry(old(State()), now - retention)
      ensures forall n :: n in tombstones <==> n in old(tombstones) && old(tombstones)[n] >= now - retention
      ensures forall n <- tombstones :: tombstones[n] == old(tombstones)[n]
    {
      var cutoff := now - retention;
      var expired: set<string> := {};
      var names := tombstones.Keys;
      while names != {}
        invariant names <= tombstones.Keys && expired <= tombstones.Keys
        invariant forall n <- tombstones :: n !in names ==> (n in expired <==> tombstones[n] < cutoff)
        invariant forall n <- names :: n !in expired
      {
        var name :| name in names;
        if tombstones[name] < cutoff {
          expired := expired + {name};
        }
        names := names - {name};
      }
      tombstones := tombstones - expired;
    }

    method Get(name: string) returns (r: Answer)
      ensures r == Lookup(State(), name)
      ensures name in tombstones || name !in namespace ==> r == NotFound
      ensures r.Found? ==>
                && r.hash == namespace[name] && r.hash in blobs && r.content == blobs[r.hash]
                && r.hash in objects && r.size == objects[r.hash].size
                && r.path == (if name in paths then paths[name] else "")
                && r.modTime == if name in modTimes then modTimes[name] else 0
    {
      if name in tombstones || name !in namespace {
        return NotFound;
      }
      var hash := namespace[name];
      if hash !in blobs || hash !in objects {
        return NotFound;
      }
      if objects[hash].size < 0 {
        return BadMessage;
      }
      r := Found(blobs[hash], hash, objects[hash].size,
                 if name in paths then paths[name] else "", if name in modTimes then modTimes[name] else 0);
    }
  }

  /** What Get answers: the tombstone first, then the mapping, the bytes and the
      metadata. */
  function Lookup(db: Db, name: string): Answer {
    if name in db.tombstones || name !in db.namespace then NotFound
    else
      var hash := db.namespace[name];
      if hash !in db.blobs || hash !in db.objects then NotFound
      else if db.objects[hash].size < 0 then BadMessage
      else Found(db.blobs[hash], hash, db.objects[hash].size,
                 if name in db.paths then db.paths[name] else "", if name in db.modTimes then db.modTimes[name] else 0)
  }

  // ---- the invariant and the abstract view ----

  /** The names mapped to a hash. */
  ghost function NamesOf(db: Db, h: string): set<string> {
    set n <- db.namespace | db.namespace[n] == h
  }

  ghost predicate NameOk(db: Db, n: string) {
    n in db.namespace ==> n !in db.tombstones && KeyOk(n) && db.namespace[n] in db.objects
  }

  ghost predicate HashOk(db: Db, h: string) {
    h in db.objects ==>
      |NamesOf(db, h)| <= db.objects[h].refCount && h in db.blobs && db.objects[h].size == |db.blobs[h]|
  }

  /** What holds between operations. */
  ghost predicate Valid(db: Db) {
    && (forall n :: NameOk(db, n)) && (forall h :: HashOk(db, h))
    && db.paths.Keys <= db.namespace.Keys && db.modTimes.Keys == db.namespace.Keys
  }

  /** The store as a plain map from names to bytes. */
  ghost function View(db: Db): map<string, Content> {
    map n <- db.namespace | db.namespace[n] in db.blobs :: db.blobs[db.namespace[n]]
  }

  /** What is known of a name beside its bytes. */
  datatype Label = Label(path: string, modTime: int)

  ghost function LabelOf(db: Db, name: string): Label {
    Label(if name in db.paths then db.paths[name] else "", if name in db.modTimes then db.modTimes[name] else 0)
  }

  ghost function Labels(db: Db): map<string, Label> {
    map n <- db.namespace :: LabelOf(db, n)
  }

  /** The answer to Get is the one of the plain map and its labels. */
  ghost predicate Reads(db: Db, name: string, view: map<string, Content>, labels: map<string, Label>) {
    if name in view then
      var r := Lookup(db, name);
      && name in labels && r.Found? && r.content == view[name] && r.size == |view[name]|
      && r.path == labels[name].path && r.modTime == labels[name].modTime
    else Lookup(db, name) == NotFound
  }

  /** Get is a lookup in the plain map. */
  lemma {:induction false} GetReadsView(db: Db, name: string)
    requires Valid(db)
    ensures name in View(db) <==> name in db.namespace
    ensures if name in View(db) then Lookup(db, name).Found? && Lookup(db, name).content == View(db)[name]
              && Lookup(db, name).size == |View(db)[name]|
            else Lookup(db, name) == NotFound
    ensures Reads(db, name, View(db), Labels(db))
  {
    if name in db.namespace {
      assert NameOk(db, name) && HashOk(db, db.namespace[name]);
    }
  }

  /** The Put of a content-addressing client: the bytes given for a stored hash
      are the stored ones, a Put without bytes names a stored hash, and the size
      is that of the bytes. */
  ghost predicate Honest(db: Db, a: PutArgs) {
    && (a.content.Some? ==> a.size == |a.content.value| && (a.hash in db.blobs ==> a.content.value == db.blobs[a.hash]))
    && (a.content.None? ==> a.hash in db.blobs && a.size == |db.blobs[a.hash]|)
  }

  /** The bytes an honest Put is about. */
  ghost function Payload(db: Db, a: PutArgs): Content
    requires Honest(db, a)
  {
    if a.content.Some? then a.content.value else db.blobs[a.hash]
  }

  lemma {:induction false} NamesAfterPut(db: Db, name: string, hash: string, h: string)
    ensures var db' := db.(namespace := db.namespace[name := hash]);
      |NamesOf(db', h)| <= |NamesOf(db, h)| + if h == hash then 1 else 0
  {
    var db' := db.(namespace := db.namespace[name := hash]);
    if h == hash {
      assert NamesOf(db', h) == NamesOf(db, h) + {name};
    } else {
      assert NamesOf(db', h) == NamesOf(db, h) - {name};
    }
  }

  lemma {:induction false} PutTxHash(db: Db, a: PutArgs, h: string)
    requires HashOk(db, h) && a.hash in db.blobs && a.size == |db.blobs[a.hash]|
    requires a.hash !in db.objects ==> NamesOf(db, a.hash) == {}
    ensures HashOk(PutTx(db, a).0, h)
  {
    var db' := PutTx(db, a).0;
    NamesAfterPut(db, a.name, a.hash, h);
    assert db'.namespace == db.namespace ||
        NamesOf(db', h) == NamesOf(db.(namespace := db.namespace[a.name := a.hash]), h);
    assert db'.namespace == db.namespace ==> NamesOf(db', h) == NamesOf(db, h);
  }

  lemma {:induction false} PutTxRefines(db: Db, a: PutArgs)
    requires Valid(db) && a.hash in db.blobs && a.size == |db.blobs[a.hash]|
    ensures var (db', s) := PutTx(db, a);
      Valid(db') && View(db') == if s == Ok then View(db)[a.name := db.blobs[a.hash]] else View(db)
  {
    var (db', s) := PutTx(db, a);
    assert a.hash !in db.objects ==> NamesOf(db, a.hash) == {} by {
      forall n <- NamesOf(db, a.hash) ensures a.hash in db.objects { assert NameOk(db, n); }
    }
    forall h ensures HashOk(db', h) {
      assert HashOk(db, h);
      PutTxHash(db, a, h);
    }
    forall n ensures NameOk(db', n) {
      assert NameOk(db, n);
    }
  }

  lemma {:induction false} BlobStored(db: Db, hash: string, content: Content)
    requires Valid(db) && (hash in db.blobs ==> content == db.blobs[hash])
    ensures var db' := db.(blobs := db.blobs[hash := content]);
      Valid(db') && View(db') == View(db)
  {
    var db' := db.(blobs := db.blobs[hash := content]);
    forall n ensures NameOk(db', n) { assert NameOk(db, n); }
    forall h ensures HashOk(db', h) {
      assert HashOk(db, h);
      assert NamesOf(db', h) == NamesOf(db, h);
    }
    forall n <- db.namespace ensures db.namespace[n] in db.blobs {
      assert NameOk(db, n) && HashOk(db, db.namespace[n]);
    }
  }

  /** An honest Put sets its name in the plain map if it succeeds and changes
      nothing there if it fails. */
  lemma {:induction false} PutRefines(db: Db, presence: bool, a: PutArgs)
    requires Valid(db) && Honest(db, a)
    ensures var (db', s) := AfterPut(db, presence, a);
      Valid(db') && View(db') == if s == Ok then View(db)[a.name := Payload(db, a)] else View(db)
  {
    assert HashOk(db, a.hash);
    if a.content.Some? && !Present(db, presence, a.hash) {
      BlobStored(db, a.hash, a.content.value);
      PutTxRefines(db.(blobs := db.blobs[a.hash := a.content.value]), a);
    } else {
      PutTxRefines(db, a);
    }
  }

  lemma {:induction false} RemovalHash(db: Db, name: string, at: int, evicts: bool, h: string)
    requires HashOk(db, h) && NameOk(db, name) && KeyOk(name)
    ensures HashOk(AfterRemoval(db, name, at, evicts), h)
  {
    var db' := AfterRemoval(db, name, at, evicts);
    if name in db.namespace && db.namespace[name] == h {
      assert NamesOf(db', h) == NamesOf(db, h) - {name};
      assert name in NamesOf(db, h);
    } else {
      assert NamesOf(db', h) == NamesOf(db, h);
    }
  }

  /** A hash that is orphaned by a name has no other name. */
  lemma {:induction false} OrphanOfOne(db: Db, name: string, h: string)
    requires HashOk(db, h) && Orphan(db, name) == Some(h)
    ensures NamesOf(db, h) == {name}
  {
    assert name in NamesOf(db, h);
    assert |NamesOf(db, h)| == |NamesOf(db, h) - {name}| + 1;
    assert NamesOf(db, h) - {name} == {};
  }

  /** Removing a name removes it from the plain map and nothing else. */
  lemma {:induction false} RemovalRefines(db: Db, name: string, at: int, evicts: bool)
    requires Valid(db)
    ensures var db' := AfterRemoval(db, name, at, evicts);
      Valid(db') && View(db') == View(db) - {name}
  {
    var db' := AfterRemoval(db, name, at, evicts);
    assert NameOk(db, name);
    if KeyOk(name) {
      forall h ensures HashOk(db', h) {
        assert HashOk(db, h);
        RemovalHash(db, name, at, evicts, h);
      }
      forall n ensures NameOk(db', n) && (n in db'.namespace ==> Orphan(db, name) != Some(db.namespace[n])) {
        RemovalName(db, name, at, evicts, n);
      }
      RemovalView(db, name, at, evicts);
    }
  }

  lemma {:induction false} RemovalName(db: Db, name: string, at: int, evicts: bool, n: string)
    requires Valid(db) && KeyOk(name)
    ensures var db' := AfterRemoval(db, name, at, evicts);
      NameOk(db', n) && (n in db'.namespace ==> Orphan(db, name) != Some(db.namespace[n]))
  {
    assert NameOk(db, n) && NameOk(db, name);
    if n in db.namespace && n != name {
      assert n in NamesOf(db, db.namespace[n]) && HashOk(db, db.namespace[n]);
      if Orphan(db, name) == Some(db.namespace[n]) {
        OrphanOfOne(db, name, db.namespace[n]);
      }
    }
  }

  lemma {:induction false} RemovalView(db: Db, name: string, at: int, evicts: bool)
    requires KeyOk(name)
    requires var db' := AfterRemoval(db, name, at, evicts);
      forall n <- db'.namespace :: Orphan(db, name) != Some(db.namespace[n])
    ensures View(AfterRemoval(db, name, at, evicts)) == View(db) - {name}
  {}

  /** A remote tombstone, applied or ignored, removes its name from the plain map. */
  lemma {:induction false} TombstoneRefines(db: Db, name: string, at: int, evicts: bool)
    requires Valid(db)
    ensures var db' := AfterTombstone(db, name, at, evicts);
      Valid(db') && View(db') == View(db) - {name}
  {
    assert NameOk(db, name);
    if !(name in db.tombstones && db.tombstones[name] >= at) {
      RemovalRefines(db, name, at, evicts);
    }
  }

  lemma {:induction false} SweepRefines(db: Db, reached: set<string>, evicted: set<string>)
    requires Valid(db)
    ensures var db' := AfterSweep(db, reached, evicted);
      Valid(db') && View(db') == View(db)
  {
    var db' := AfterSweep(db, reached, evicted);
    forall h ensures HashOk(db', h) {
      assert HashOk(db, h);
      assert NamesOf(db', h) == NamesOf(db, h);
    }
    forall n ensures NameOk(db', n) {
      SweepSparesMapped(db, n);
    }
    forall n <- db.namespace ensures !Sweepable(db, db.namespace[n]) {
      SweepSparesMapped(db, n);
    }
  }

  lemma {:induction false} SweepSparesMapped(db: Db, n: string)
    requires Valid(db)
    ensures NameOk(db, n) && (n in db.namespace ==> !Sweepable(db, db.namespace[n]))
  {
    assert NameOk(db, n);
    if n in db.namespace {
      assert HashOk(db, db.namespace[n]) && n in NamesOf(db, db.namespace[n]);
    }
  }

  lemma {:induction false} ExpiryRefines(db: Db, cutoff: int)
    requires Valid(db)
    ensures Valid(AfterExpiry(db, cutoff)) && View(AfterExpiry(db, cutoff)) == View(db)
  {
    var db' := AfterExpiry(db, cutoff);
    forall n ensures NameOk(db', n) { assert NameOk(db, n); }
    forall h ensures HashOk(db', h) {
      assert HashOk(db, h);
      assert NamesOf(db', h) == NamesOf(db, h);
    }
  }

  // ---- runs ----

  datatype Op =
    | Put(args: PutArgs)
    | Delete(name: string, at: int, evicts: bool)
    | Tombstone(name: string, at: int, evicts: bool)
    | Sweep(reached: set<string>, evicted: set<string>)
    | Expire(cutoff: int)

  function Exec(db: Db, presence: bool, op: Op): Db {
    match op
    case Put(a) => AfterPut(db, presence, a).0
    case Delete(name, at, evicts) => AfterRemoval(db, name, at, evicts)
    case Tombstone(name, at, evicts) => AfterTombstone(db, name, at, evicts)
    case Sweep(reached, evicted) => AfterSweep(db, reached, evicted)
    case Expire(cutoff) => AfterExpiry(db, cutoff)
  }

  /** What an operation does to the plain map. */
  datatype Effect = Set(name: string, content: Content, path: RemotePath, now: int) | Unset(name: string) | Nothing

  ghost function Meaning(db: Db, presence: bool, op: Op): Effect
    requires op.Put? ==> Honest(db, op.args)
  {
    match op
    case Put(a) => if AfterPut(db, presence, a).1 == Ok then Set(a.name, Payload(db, a), a.path, a.now) else Nothing
    case Delete(name, _, _) => Unset(name)
    case Tombstone(name, _, _) => Unset(name)
    case _ => Nothing
  }

  function Updated(v: map<string, Content>, e: Effect): map<string, Content> {
    match e
    case Set(name, content, _, _) => v[name := content]
    case Unset(name) => v - {name}
    case Nothing => v
  }

  /** A name set gets the time; without a path it keeps the one it had, if any. */
  function Relabelled(l: map<string, Label>, e: Effect): map<string, Label> {
    match e
    case Set(name, _, path, now) =>
      var before := if name in l then l[name].path else "";
      l[name := Label(if path.Normalized? then path.path else before, now)]
    case Unset(name) => l - {name}
    case Nothing => l
  }

  lemma {:induction false} PutRelabels(db: Db, presence: bool, a: PutArgs, n: string)
    requires db.paths.Keys <= db.namespace.Keys
    ensures var (db', s) := AfterPut(db, presence, a);
      && (n in db'.namespace <==> n in db.namespace || (s == Ok && n == a.name))
      && LabelOf(db', n) ==
         if s != Ok || n != a.name then LabelOf(db, n)
         else Label(if a.path.Normalized? then a.path.path else LabelOf(db, n).path, a.now)
  {}

  lemma {:induction false} RemovalRelabels(db: Db, name: string, at: int, evicts: bool, n: string)
    requires NameOk(db, name)
    ensures var db' := AfterRemoval(db, name, at, evicts);
      && (n in db'.namespace <==> n in db.namespace && n != name)
      && (n in db'.namespace ==> LabelOf(db', n) == LabelOf(db, n))
  {}

  lemma {:induction false} StepRelabels(db: Db, presence: bool, op: Op)
    requires Valid(db) && (op.Put? ==> Honest(db, op.args))
    ensures Labels(Exec(db, presence, op)) == Relabelled(Labels(db), Meaning(db, presence, op))
  {
    match op
    case Put(a) => PutLabels(db, presence, a);
    case Delete(name, at, evicts) => RemovalLabels(db, name, at, evicts);
    case Tombstone(name, at, evicts) =>
      assert NameOk(db, name);
      if !(name in db.tombstones && db.tombstones[name] >= at) {
        RemovalLabels(db, name, at, evicts);
      }
    case _ =>
  }

  lemma {:induction false} PutLabels(db: Db, presence: bool, a: PutArgs)
    requires Valid(db) && Honest(db, a)
    ensures Labels(AfterPut(db, presence, a).0) == Relabelled(Labels(db), Meaning(db, presence, Put(a)))
  {
    var l, l' := Labels(AfterPut(db, presence, a).0), Relabelled(Labels(db), Meaning(db, presence, Put(a)));
    assert a.name !in db.namespace ==> LabelOf(db, a.name).path == "";
    forall n ensures (n in l <==> n in l') && (n in l ==> l[n] == l'[n]) {
      PutRelabels(db, presence, a, n);
    }
  }

  lemma {:induction false} RemovalLabels(db: Db, name: string, at: int, evicts: bool)
    requires Valid(db)
    ensures Labels(AfterRemoval(db, name, at, evicts)) == Labels(db) - {name}
  {
    assert NameOk(db, name);
    var l, l' := Labels(AfterRemoval(db, name, at, evicts)), Labels(db) - {name};
    forall n ensures (n in l <==> n in l') && (n in l ==> l[n] == l'[n]) {
      RemovalRelabels(db, name, at, evicts, n);
    }
  }

  /** The count of a hash: a Put that succeeds adds one for its own hash, the removal of
      a mapped name takes one from the hash of the name, and nothing else changes it,
      but for the sweep of entries without references. */
  lemma {:induction false} StepCounts(db: Db, presence: bool, op: Op, h: string)
    requires Valid(db)
    ensures var before, after := References(db, h), References(Exec(db, presence, op), h);
      match op
      case Put(a) => after == before + if AfterPut(db, presence, a).1 == Ok && a.hash == h then 1 else 0
      case Sweep(_, _) => after == before || (before <= 0 && after == 0)
      case Expire(_) => after == before
      case _ =>
        var gone := op.name in db.namespace && op.name !in Exec(db, presence, op).namespace;
        after == if gone && db.namespace[op.name] == h then before - 1 else before
  {
    match op
    case Put(a) => PutCounts(db, presence, a, h);
    case Delete(name, at, evicts) => RemovalCounts(db, name, at, evicts, h);
    case Tombstone(name, at, evicts) =>
      if !(name in db.tombstones && db.tombstones[name] >= at) {
        RemovalCounts(db, name, at, evicts, h);
      }
    case _ =>
  }

  lemma {:induction false} PutCounts(db: Db, presence: bool, a: PutArgs, h: string)
    ensures var (db', s) := AfterPut(db, presence, a);
      References(db', h) == References(db, h) + if s == Ok && a.hash == h then 1 else 0
  {}

  lemma {:induction false} RemovalCounts(db: Db, name: string, at: int, evicts: bool, h: string)
    requires Valid(db)
    ensures var db' := AfterRemoval(db, name, at, evicts);
      && (name in db'.namespace ==> References(db', h) == References(db, h))
      && (name !in db'.namespace ==>
            References(db', h) == References(db, h) - if name in db.namespace && db.namespace[name] == h then 1 else 0)
  {
    assert NameOk(db, name);
    if name in db.namespace && db.namespace[name] == h {
      assert name in NamesOf(db, h) && HashOk(db, h);
    } else {
      RemovalMisses(db, name, at, evicts, h);
    }
  }

  ghost predicate Injective(digest: imap<Content, string>) {
    (forall c :: c in digest) && forall c, d :: digest[c] == digest[d] ==> c == d
  }

  ghost predicate Named(db: Db, digest: imap<Content, string>) {
    forall h <- db.blobs :: db.blobs[h] in digest && digest[db.blobs[h]] == h
  }

  /** An injective digest names every blob. */
  ghost predicate Addressed(db: Db, digest: imap<Content, string>) {
    Injective(digest) && Named(db, digest)
  }

  /** Clients pass the digest of the bytes they send, and send none only for
      bytes that are stored. */
  ghost predicate Proper(db: Db, digest: imap<Content, string>, op: Op)
    requires Addressed(db, digest)
  {
    op.Put? ==>
      var a := op.args;
      if a.content.Some? then a.hash == digest[a.content.value] && a.size == |a.content.value|
      else a.hash in db.blobs && a.size == |db.blobs[a.hash]|
  }

  lemma {:induction false} NamedKept(db: Db, presence: bool, digest: imap<Content, string>, op: Op)
    requires Named(db, digest)
    requires op.Put? && op.args.content.Some? ==>
             op.args.content.value in digest && op.args.hash == digest[op.args.content.value]
    ensures Named(Exec(db, presence, op), digest)
  {
    if !op.Put? {
      FewerBlobs(db, presence, op);
    }
  }

  lemma {:induction false} FewerBlobs(db: Db, presence: bool, op: Op)
    requires !op.Put?
    ensures forall h <- Exec(db, presence, op).blobs :: h in db.blobs && Exec(db, presence, op).blobs[h] == db.blobs[h]
  {}

  lemma {:induction false} ProperIsHonest(db: Db, digest: imap<Content, string>, a: PutArgs)
    requires Addressed(db, digest) && Proper(db, digest, Put(a))
    ensures Honest(db, a)
  {}

  lemma {:induction false} StepRefines(db: Db, presence: bool, digest: imap<Content, string>, op: Op)
    requires Valid(db) && Addressed(db, digest) && Proper(db, digest, op)
    ensures op.Put? ==> Honest(db, op.args)
    ensures var db' := Exec(db, presence, op);
      Valid(db') && View(db') == Updated(View(db), Meaning(db, presence, op))
  {
    match op
    case Put(a) =>
      ProperIsHonest(db, digest, a);
      PutRefines(db, presence, a);
    case Delete(name, at, evicts) => RemovalRefines(db, name, at, evicts);
    case Tombstone(name, at, evicts) => TombstoneRefines(db, name, at, evicts);
    case Sweep(reached, evicted) => SweepRefines(db, reached, evicted);
    case Expire(cutoff) => ExpiryRefines(db, cutoff);
  }

  /** `states` is the run of `ops`, each of them proper where it is executed. */
  ghost predicate IsRun(states: seq<Db>, presence: bool, digest: imap<Content, string>, ops: seq<Op>) {
    && |states| == |ops| + 1
    && forall i :: 0 <= i < |ops| ==>
         && states[i + 1] == Exec(states[i], presence, ops[i])
         && (Addressed(states[i], digest) ==> Proper(states[i], digest, ops[i]))
  }

  /** Every run keeps the invariant, and Get answers from the plain map that the
      operations describe. */
  lemma {:induction false} RunRefines(states: seq<Db>, presence: bool, digest: imap<Content, string>, ops: seq<Op>,
                                      i: nat)
    requires IsRun(states, presence, digest, ops) && i < |states| && Valid(states[0]) && Addressed(states[0], digest)
    ensures Valid(states[i]) && Addressed(states[i], digest)
    ensures i > 0 && ops[i - 1].Put? ==> Honest(states[i - 1], ops[i - 1].args)
    ensures i > 0 ==>
              var effect := Meaning(states[i - 1], presence, ops[i - 1]);
              && View(states[i]) == Updated(View(states[i - 1]), effect)
              && Labels(states[i]) == Relabelled(Labels(states[i - 1]), effect)
    ensures forall name :: Reads(states[i], name, View(states[i]), Labels(states[i]))
  {
    if i > 0 {
      RunRefines(states, presence, digest, ops, i - 1);
      StepRefines(states[i - 1], presence, digest, ops[i - 1]);
      StepRelabels(states[i - 1], presence, ops[i - 1]);
      NamedKept(states[i - 1], presence, digest, ops[i - 1]);
    }
    forall name ensures Reads(states[i], name, View(states[i]), Labels(states[i])) {
      GetReadsView(states[i], name);
    }
  }

  // ---- remote tombstones converge ----

  /** Per name the newest of the tombstones seen so far. */
  function Merged(m: map<string, int>, name: string, at: int): map<string, int> {
    if !KeyOk(name) || (name in m && m[name] >= at) then m else m[name := at]
  }

  function Summary(ts: seq<(string, int)>): (m: map<string, int>)
    ensures forall n <- m :: KeyOk(n) && (n, m[n]) in ts
    ensures forall t <- ts :: KeyOk(t.0) ==> t.0 in m && t.1 <= m[t.0]
  {
    if ts == [] then map[]
    else
      var last := ts[|ts| - 1];
      assert ts == ts[..|ts| - 1] + [last];
      Merged(Summary(ts[..|ts| - 1]), last.0, last.1)
  }

  /** The names of hash `h` that the tombstones of `m` unmap. */
  ghost function Lost(db: Db, m: map<string, int>, h: string): set<string> {
    set n <- NamesOf(db, h) | n in m
  }

  /** The hash keeps a reference, or had lost none. */
  ghost predicate Survives(db: Db, m: map<string, int>, h: string) {
    h in db.objects && (Lost(db, m, h) == {} || |Lost(db, m, h)| < db.objects[h].refCount)
  }

  /** Its entry with one reference less for each name lost. */
  ghost function Remaining(db: Db, m: map<string, int>, h: string): Meta
    requires h in db.objects
  {
    if Lost(db, m, h) == {} then db.objects[h]
    else db.objects[h].(refCount := db.objects[h].refCount - |Lost(db, m, h)|, legacy := false)
  }

  ghost function Newest(db: Db, m: map<string, int>, n: string): int
    requires n in db.tombstones || n in m
  {
    if n in m && (n in db.tombstones ==> db.tombstones[n] < m[n]) then m[n] else db.tombstones[n]
  }

  ghost function Tombs(db: Db, m: map<string, int>): map<string, int> {
    map n <- db.tombstones.Keys + m.Keys :: Newest(db, m, n)
  }

  /** The one state that tombstones `m` lead to: per-name maximum timestamps,
      those names unmapped, each hash's count reduced once per name it lost, and
      a hash without references left gone. */
  ghost function Final(db: Db, m: map<string, int>): Db {
    Db(db.namespace - m.Keys,
       map h <- db.objects | Survives(db, m, h) :: Remaining(db, m, h),
       Tombs(db, m),
       db.paths - m.Keys, db.modTimes - m.Keys,
       db.blobs - set h <- db.objects | !Survives(db, m, h))
  }

  function Received(db: Db, ts: seq<(string, int)>): Db {
    if ts == [] then db
    else AfterTombstone(Received(db, ts[..|ts| - 1]), ts[|ts| - 1].0, ts[|ts| - 1].1, true)
  }

  lemma {:induction false} LostGrows(db: Db, m: map<string, int>, name: string, at: int, h: string)
    ensures Lost(db, m[name := at], h) ==
            Lost(db, m, h) + if name in db.namespace && db.namespace[name] == h then {name} else {}
  {}

  /** A hash of a name still mapped has more references than it lost. */
  lemma {:induction false} LostIsPart(db: Db, m: map<string, int>, name: string)
    requires Valid(db) && name in db.namespace && name !in m
    ensures var h := db.namespace[name];
      h in db.objects && name !in Lost(db, m, h) && |Lost(db, m, h)| < db.objects[h].refCount
  {
    var h := db.namespace[name];
    assert NameOk(db, name) && HashOk(db, h);
    var lost, names := Lost(db, m, h), NamesOf(db, h);
    assert lost <= names && name in names && name !in lost;
    assert names == lost + (names - lost);
    assert name in names - lost;
  }

  /** One more name lost to `h`. */
  lemma {:induction false} OneMoreLost(db: Db, m: map<string, int>, name: string, at: int)
    requires Valid(db) && name in db.namespace && name !in m
    ensures var h := db.namespace[name];
      && Survives(db, m, h) && (Survives(db, m[name := at], h) <==> Remaining(db, m, h).refCount > 1)
      && Remaining(db, m[name := at], h) ==
         Remaining(db, m, h).(refCount := Remaining(db, m, h).refCount - 1, legacy := false)
  {
    LostIsPart(db, m, name);
    LostGrows(db, m, name, at, db.namespace[name]);
  }

  lemma {:induction false} NoneMoreLost(db: Db, m: map<string, int>, name: string, at: int, h: string)
    requires name in m || name !in db.namespace || db.namespace[name] != h
    ensures Lost(db, m[name := at], h) == Lost(db, m, h)
  {
    LostGrows(db, m, name, at, h);
  }

  /** The entries and bytes of one hash agree in two states. */
  ghost predicate SameHash(r: Db, g: Db, h: string) {
    && (h in r.objects <==> h in g.objects) && (h in r.objects ==> r.objects[h] == g.objects[h])
    && (h in r.blobs <==> h in g.blobs) && (h in r.blobs ==> r.blobs[h] == g.blobs[h])
  }

  lemma {:induction false} HitHash(db: Db, m: map<string, int>, name: string, at: int)
    requires Valid(db) && KeyOk(name) && name in db.namespace && name !in m
    ensures SameHash(AfterRemoval(Final(db, m), name, at, true), Final(db, m[name := at]), db.namespace[name])
  {
    OneMoreLost(db, m, name, at);
  }

  /** Removing a name leaves the hashes of other names alone. */
  lemma {:induction false} RemovalMisses(db: Db, name: string, at: int, evicts: bool, h: string)
    requires name !in db.namespace || db.namespace[name] != h
    ensures SameHash(AfterRemoval(db, name, at, evicts), db, h)
  {}

  lemma {:induction false} FinalMisses(db: Db, m: map<string, int>, n: map<string, int>, h: string)
    requires Lost(db, m, h) == Lost(db, n, h)
    ensures SameHash(Final(db, m), Final(db, n), h)
  {}

  lemma {:induction false} MissedHash(db: Db, m: map<string, int>, name: string, at: int, h: string)
    requires KeyOk(name) && (name in m || name !in db.namespace || db.namespace[name] != h)
    ensures SameHash(AfterRemoval(Final(db, m), name, at, true), Final(db, m[name := at]), h)
  {
    NoneMoreLost(db, m, name, at, h);
    FinalMisses(db, m, m[name := at], h);
    RemovalMisses(Final(db, m), name, at, true, h);
  }

  lemma {:induction false} SameHashes(r: Db, g: Db)
    requires forall h :: SameHash(r, g, h)
    ensures r.objects == g.objects && r.blobs == g.blobs
  {
    assert forall h <- r.objects :: SameHash(r, g, h);
    assert forall h <- g.objects :: SameHash(r, g, h);
    assert forall h <- r.blobs :: SameHash(r, g, h);
    assert forall h <- g.blobs :: SameHash(r, g, h);
  }

  ghost predicate SameNames(r: Db, g: Db) {
    r.tombstones == g.tombstones && r.namespace == g.namespace && r.paths == g.paths && r.modTimes == g.modTimes
  }

  lemma {:induction false} NewerTombs(db: Db, m: map<string, int>, name: string, at: int)
    requires (name in db.tombstones ==> db.tombstones[name] < at) && (name in m ==> m[name] < at)
    ensures Tombs(db, m)[name := at] == Tombs(db, m[name := at])
  {
    var t, u := Tombs(db, m)[name := at], Tombs(db, m[name := at]);
    forall n <- t ensures n in u && t[n] == u[n] {
      if n != name { assert Newest(db, m, n) == Newest(db, m[name := at], n); }
    }
    assert t.Keys == u.Keys;
  }

  lemma {:induction false} MinusKey<V>(a: map<string, V>, m: map<string, int>, name: string, at: int)
    ensures (a - m.Keys) - {name} == a - m[name := at].Keys
  {}

  lemma {:induction false} NewerNames(db: Db, m: map<string, int>, name: string, at: int)
    requires KeyOk(name) && (name in db.tombstones ==> db.tombstones[name] < at) && (name in m ==> m[name] < at)
    ensures SameNames(AfterRemoval(Final(db, m), name, at, true), Final(db, m[name := at]))
  {
    NewerTombs(db, m, name, at);
    MinusKey(db.namespace, m, name, at);
    MinusKey(db.paths, m, name, at);
    MinusKey(db.modTimes, m, name, at);
  }

  /** A tombstone that is newer than all before leads from one final state to the next. */
  lemma {:induction false} NewerTombstone(db: Db, m: map<string, int>, name: string, at: int)
    requires Valid(db) && KeyOk(name)
    requires (name in db.tombstones ==> db.tombstones[name] < at) && (name in m ==> m[name] < at)
    ensures AfterRemoval(Final(db, m), name, at, true) == Final(db, m[name := at])
  {
    var r, g := AfterRemoval(Final(db, m), name, at, true), Final(db, m[name := at]);
    forall h ensures SameHash(r, g, h) {
      if name in db.namespace && name !in m && db.namespace[name] == h {
        HitHash(db, m, name, at);
      } else {
        MissedHash(db, m, name, at, h);
      }
    }
    SameHashes(r, g);
    NewerNames(db, m, name, at);
  }

  lemma {:induction false} OlderHash(db: Db, m: map<string, int>, name: string, at: int, h: string)
    requires name !in db.namespace
    ensures SameHash(Final(db, m), Final(db, m[name := at]), h)
  {
    NoneMoreLost(db, m, name, at, h);
  }

  lemma {:induction false} OlderTombs(db: Db, m: map<string, int>, name: string, at: int)
    requires name in db.tombstones && at <= db.tombstones[name] && (name in m ==> m[name] < at)
    ensures Tombs(db, m) == Tombs(db, m[name := at])
  {
    var t, u := Tombs(db, m), Tombs(db, m[name := at]);
    forall n <- t ensures n in u && t[n] == u[n] {
      assert Newest(db, m, n) == Newest(db, m[name := at], n);
    }
    assert t.Keys == u.Keys;
  }

  lemma {:induction false} OlderNames(db: Db, m: map<string, int>, name: string, at: int)
    requires Valid(db) && name in db.tombstones && at <= db.tombstones[name] && (name in m ==> m[name] < at)
    ensures name !in db.namespace && SameNames(Final(db, m), Final(db, m[name := at]))
  {
    assert NameOk(db, name);
    OlderTombs(db, m, name, at);
  }

  /** One that is not newer leaves the final state as it is. */
  lemma {:induction false} OlderTombstone(db: Db, m: map<string, int>, name: string, at: int)
    requires Valid(db) && name in db.tombstones && at <= db.tombstones[name] && (name in m ==> m[name] < at)
    ensures Final(db, m) == Final(db, m[name := at])
  {
    OlderNames(db, m, name, at);
    var f, g := Final(db, m), Final(db, m[name := at]);
    forall h ensures SameHash(f, g, h) {
      OlderHash(db, m, name, at, h);
    }
    SameHashes(f, g);
  }

  lemma {:induction false} FinalStep(db: Db, m: map<string, int>, name: string, at: int)
    requires Valid(db)
    ensures AfterTombstone(Final(db, m), name, at, true) == Final(db, Merged(m, name, at))
  {
    if KeyOk(name) && (name in m ==> m[name] < at) {
      if name in db.tombstones && at <= db.tombstones[name] {
        OlderTombstone(db, m, name, at);
      } else {
        NewerTombstone(db, m, name, at);
      }
    }
  }

  lemma {:induction false} NothingReceived(db: Db)
    ensures Final(db, map[]) == db
  {
    forall h ensures Lost(db, map[], h) == {} {}
    var f := Final(db, map[]);
    assert f.objects == db.objects && f.tombstones == db.tombstones;
    assert f.namespace == db.namespace && f.paths == db.paths && f.modTimes == db.modTimes && f.blobs == db.blobs;
  }

  /** Receiving tombstones ends in the state their per-name maxima determine. */
  lemma {:induction false} TombstonesSettle(db: Db, ts: seq<(string, int)>)
    requires Valid(db)
    ensures Received(db, ts) == Final(db, Summary(ts))
  {
    if ts == [] {
      NothingReceived(db);
    } else {
      var n := |ts| - 1;
      TombstonesSettle(db, ts[..n]);
      FinalStep(db, Summary(ts[..n]), ts[n].0, ts[n].1);
    }
  }

  /** The same set of tombstones in any order and with any repetition leads to
      the same state. */
  lemma {:induction false} TombstonesConverge(db: Db, ts: seq<(string, int)>, us: seq<(string, int)>)
    requires Valid(db) && (forall t <- ts :: t in us) && (forall u <- us :: u in ts)
    ensures Received(db, ts) == Received(db, us)
  {
    TombstonesSettle(db, ts);
    TombstonesSettle(db, us);
    var a, b := Summary(ts), Summary(us);
    forall n ensures (n in a <==> n in b) && (n in a ==> a[n] == b[n]) {
      if n in a { assert (n, a[n]) in us; }
      if n in b { assert (n, b[n]) in ts; }
    }
    assert a == b;
  }
}
