module MomoLog {

  // What the momo filesystem asks of the store: every operation is a sequence of writes
  // to the keys of paths. A file's reference is put under a new path without its bytes,
  // which is right only while the bytes are stored under some other path.

  import opened MomoTree
  import opened MomoRewrite

  type Content = seq<bv8>

  datatype Write =
    | PutDir(path: Path, manifest: Manifest)
    | DropDir(path: Path)
    | PutFile(path: Path, hash: string, size: nat, content: Option<Content>)
    | DropFile(path: Path)

  function Applied(s: Store, x: Write): Store {
    match x
    case PutDir(p, m) => s.(dirs := s.dirs[p := m])
    case DropDir(p) => s.(dirs := s.dirs - {p})
    case PutFile(p, h, _, _) => s.(files := s.files[p := h])
    case DropFile(p) => s.(files := s.files - {p})
  }

  /** The writes so far, the last one outermost. */
  datatype Log = Empty | Then(log: Log, write: Write)

  /** What the writes have left of an empty store. */
  function Replay(l: Log): Store {
    match l
    case Empty => Store(map[], map[])
    case Then(l', x) => Applied(Replay(l'), x)
  }

  /** Some content has this hash and this size. */
  ghost predicate TrueSize(digest: imap<Content, string>, hash: string, size: nat) {
    exists c <- digest :: digest[c] == hash && |c| == size
  }

  ghost predicate SizedManifest(digest: imap<Content, string>, m: Manifest) {
    forall e <- m :: e.kind.File? ==> TrueSize(digest, e.hash, e.size)
  }

  ghost predicate Sized(digest: imap<Content, string>, d: map<Path, Manifest>) {
    forall p <- d :: SizedManifest(digest, d[p])
  }

  ghost predicate Stored(s: Store, hash: string) {
    exists p <- s.files :: s.files[p] == hash
  }

  /** A write that is right in front of the store `s`: bytes come with their hash and
      size, and without bytes the hash is that of a path stored already. */
  ghost predicate Right(digest: imap<Content, string>, s: Store, x: Write) {
    match x
    case PutDir(_, m) => SizedManifest(digest, m)
    case PutFile(_, h, n, Some(c)) => c in digest && h == digest[c] && n == |c|
    case PutFile(_, h, n, None) => TrueSize(digest, h, n) && Stored(s, h)
    case _ => true
  }

  ghost predicate AllRight(digest: imap<Content, string>, l: Log) {
    l.Then? ==> AllRight(digest, l.log) && Right(digest, Replay(l.log), l.write)
  }

  /** Right writes keep the sizes in the manifests true. */
  lemma {:induction false} SizesTrue(digest: imap<Content, string>, l: Log)
    requires AllRight(digest, l)
    ensures Sized(digest, Replay(l).dirs)
  {
    if l.Then? {
      SizesTrue(digest, l.log);
    }
  }

  lemma {:induction false} SizedAppend(digest: imap<Content, string>, m: Manifest, e: Entry)
    requires SizedManifest(digest, m) && (e.kind.File? ==> TrueSize(digest, e.hash, e.size))
    ensures SizedManifest(digest, m + [e])
  {}

  lemma {:induction false} SizedWithout(digest: imap<Content, string>, m: Manifest, base: string)
    requires SizedManifest(digest, m)
    ensures SizedManifest(digest, Without(m, base))
  {}

  lemma {:induction false} SizedReplace(digest: imap<Content, string>, m: Manifest, e: Entry)
    requires SizedManifest(digest, m) && (e.kind.File? ==> TrueSize(digest, e.hash, e.size))
    ensures SizedManifest(digest, Replace(m, e))
  {}

  lemma {:induction false} SizedEntry(digest: imap<Content, string>, m: Manifest, base: string)
    requires SizedManifest(digest, m) && FindEntry(m, base).Some? && FindEntry(m, base).value.kind.File?
    ensures TrueSize(digest, FindEntry(m, base).value.hash, FindEntry(m, base).value.size)
  {}

  // ---- the writes of a rewrite ----

  function RewriteLog(l: Log, s: Store, o: Path, w: Path, frames: nat): Log
    decreases frames, 0
  {
    if frames == 0 || o !in s.dirs then l
    else ChildrenLog(Then(Then(l, PutDir(w, s.dirs[o])), DropDir(o)), RootMoved(s, o, w), s.dirs[o], 0, o, w,
        frames - 1)
  }

  function ChildrenLog(l: Log, s: Store, m: Manifest, i: nat, o: Path, w: Path, frames: nat): Log
    requires i <= |m|
    decreases frames, 2 + |m| - i
  {
    if i == |m| then l
    else
      var (s1, r) := RewriteChild(s, m[i], o, w, frames);
      var l1 := ChildLog(l, s, m[i], o, w, frames);
      if r != Ok then l1 else ChildrenLog(l1, s1, m, i + 1, o, w, frames)
  }

  function ChildLog(l: Log, s: Store, e: Entry, o: Path, w: Path, frames: nat): Log
    decreases frames, 1
  {
    if e.kind.Dir? then RewriteLog(l, s, o + [e.name], w + [e.name], frames)
    else Then(Then(l, PutFile(w + [e.name], e.hash, e.size, None)), DropFile(o + [e.name]))
  }

  /** The log is what the rewrite does. */
  lemma {:induction false} RewriteReplays(l: Log, s: Store, o: Path, w: Path, frames: nat)
    requires Replay(l) == s
    ensures Replay(RewriteLog(l, s, o, w, frames)) == Rewrite(s, o, w, frames).0
    decreases frames, 0
  {
    if frames > 0 && o in s.dirs {
      ChildrenReplay(Then(Then(l, PutDir(w, s.dirs[o])), DropDir(o)), RootMoved(s, o, w), s.dirs[o], 0, o, w,
          frames - 1);
    }
  }

  lemma {:induction false} ChildrenReplay(l: Log, s: Store, m: Manifest, i: nat, o: Path, w: Path, frames: nat)
    requires i <= |m| && Replay(l) == s
    ensures Replay(ChildrenLog(l, s, m, i, o, w, frames)) == RewriteChildren(s, m, i, o, w, frames).0
    decreases frames, 2 + |m| - i
  {
    if i < |m| {
      var (s1, r) := RewriteChild(s, m[i], o, w, frames);
      ChildReplays(l, s, m[i], o, w, frames);
      if r == Ok {
        ChildrenReplay(ChildLog(l, s, m[i], o, w, frames), s1, m, i + 1, o, w, frames);
      }
    }
  }

  lemma {:induction false} ChildReplays(l: Log, s: Store, e: Entry, o: Path, w: Path, frames: nat)
    requires Replay(l) == s
    ensures Replay(ChildLog(l, s, e, o, w, frames)) == RewriteChild(s, e, o, w, frames).0
    decreases frames, 1
  {
    if e.kind.Dir? {
      RewriteReplays(l, s, o + [e.name], w + [e.name], frames);
    }
  }

  /** Moving an intact subtree, a file's reference is put while the old one is there. */
  lemma {:induction false} RewriteRight(digest: imap<Content, string>, l: Log, s: Store, o: Path, w: Path, frames: nat)
    requires AllRight(digest, l) && Replay(l) == s && CanMove(s.dirs, s.files, o, w)
    ensures AllRight(digest, RewriteLog(l, s, o, w, frames))
    decreases frames, 0
  {
    if frames > 0 {
      var m := s.dirs[o];
      SizesTrue(digest, l);
      RootMoves(s, o, w);
      assert m[..0] == [];
      ChildrenRight(digest, Then(Then(l, PutDir(w, m)), DropDir(o)), s, RootMoved(s, o, w), m, 0, o, w, frames - 1);
    }
  }

  lemma {:induction false} ChildrenRight(digest: imap<Content, string>, l: Log, s0: Store, s: Store, m: Manifest,
                                         i: nat, o: Path, w: Path, frames: nat)
    requires AllRight(digest, l) && Replay(l) == s && SizedManifest(digest, m)
    requires CanMove(s0.dirs, s0.files, o, w) && s0.dirs[o] == m && i <= |m| && MidMove(s0, s, o, w, Names(m[..i]))
    ensures AllRight(digest, ChildrenLog(l, s, m, i, o, w, frames))
    decreases frames, 2 + |m| - i
  {
    if i < |m| {
      var (s1, r) := RewriteChild(s, m[i], o, w, frames);
      var l1 := ChildLog(l, s, m[i], o, w, frames);
      ChildReady(s0, s, o, w, m, i);
      if m[i].kind.Dir? {
        RewriteRight(digest, l, s, o + [m[i].name], w + [m[i].name], frames);
        RewriteMoves(s, o + [m[i].name], w + [m[i].name], frames);
      } else {
        FileThere(s0, s, o, w, m, i);
        assert m[i] in m;
      }
      if r == Ok {
        ChildReplays(l, s, m[i], o, w, frames);
        MidMoveNext(s0, s, s1, o, w, m, i);
        ChildrenRight(digest, l1, s0, s1, m, i + 1, o, w, frames);
      }
    }
  }

  /** A file not yet moved is stored under its old path. */
  lemma {:induction false} FileThere(s0: Store, s: Store, o: Path, w: Path, m: Manifest, i: nat)
    requires CanMove(s0.dirs, s0.files, o, w) && s0.dirs[o] == m && i < |m| && m[i].kind.File? &&
             MidMove(s0, s, o, w, Names(m[..i]))
    requires m[i].name !in Names(m[..i])
    ensures Stored(s, m[i].hash)
  {
    var p := o + [m[i].name];
    FindUnique(m, i);
    ParentChild(o, m[i].name);
    assert NodeOk(s0.dirs, s0.files, p);
    ChildIntact(s0.dirs, s0.files, s.dirs, s.files, o, w, Names(m[..i]), m[i].name);
    assert SameAt(s.files, p, s0.files, p);
  }
}
