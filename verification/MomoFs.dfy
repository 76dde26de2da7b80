module MomoFs {

  // The operations of the momo filesystem, src/momofs/momofs.go: POSIX metadata over
  // the content-addressed store. Because the keys of the store are derived from
  // paths, renaming a directory re-keys every descendant.

  import opened MomoTree
  import opened MomoRewrite
  import opened MomoRename
  import opened MomoLog

  datatype Op =
    | Mkdir(path: Path, mode: nat, now: int)
    | Create(path: Path, mode: nat, data: Content, now: int)
    | Remove(path: Path)
    | Link(src: Path, dst: Path)
    | Rename(src: Path, dst: Path)

  class FS {
    var dirs: map<Path, Manifest>
    var files: map<Path, string>

    /** The writes to the store so far. */
    ghost var log: Log

    /** Whether a manifest stays within the size limit once encoded. */
    const fits: Manifest -> bool

    /** The content hash of a file's bytes. */
    const hashOf: Content -> string

    /** No manifest is too large. */
    ghost predicate AllFit() {
      forall m :: fits(m)
    }

    /** The hash as a table. */
    ghost const digest: imap<Content, string>

    /** The two maps are what the writes have left. */
    ghost predicate Valid()
      reads this
    {
      Replay(log) == Store(dirs, files) && Hashed()
    }

    ghost predicate Hashed() {
      forall c: Content :: c in digest && digest[c] == hashOf(c)
    }

    /** So far bytes came with their hash and size, and a Put without bytes named a
        hash that was stored. */
    ghost predicate Clean()
      reads this
    {
      AllRight(digest, log)
    }

    constructor (fits: Manifest -> bool, hashOf: Content -> string)
      ensures dirs == map[] && files == map[] && WellFormed(dirs, files)
      ensures this.fits == fits && this.hashOf == hashOf && Valid() && Clean()
    {
      this.fits := fits;
      this.hashOf := hashOf;
      digest := imap c: Content | true :: hashOf(c);
      dirs, files, log := map[], map[], Empty;
    }

    /** The source of a link is stored. */
    lemma LinkSource(src: Path, e: Entry)
      requires WellFormed(dirs, files) && EntryAt(dirs, src) == Some(e) && e.kind.File?
      ensures Stored(Store(dirs, files), e.hash)
    {
      var p := Parent(src) + [Base(src)];
      ParentChild(Parent(src), Base(src));
      assert NodeOk(dirs, files, p);
    }

    // The operations of the store that the filesystem uses.

    method PutDirKey(p: Path, m: Manifest)
      requires Valid()
      modifies this`dirs, this`log
      ensures dirs == old(dirs)[p := m] && log == Then(old(log), PutDir(p, m)) && Valid()
      ensures old(Clean()) && SizedManifest(digest, m) ==> Clean()
    {
      dirs, log := dirs[p := m], Then(log, PutDir(p, m));
    }

    method DeleteDirKey(p: Path)
      requires Valid()
      modifies this`dirs, this`log
      ensures dirs == old(dirs) - {p} && log == Then(old(log), DropDir(p)) && Valid()
      ensures old(Clean()) ==> Clean()
    {
      dirs, log := dirs - {p}, Then(log, DropDir(p));
    }

    method PutObjKey(p: Path, hash: string, size: nat, content: Option<Content>)
      requires Valid()
      modifies this`files, this`log
      ensures files == old(files)[p := hash] && log == Then(old(log), PutFile(p, hash, size, content)) && Valid()
      ensures old(Clean()) && Right(digest, old(Store(dirs, files)), PutFile(p, hash, size, content)) ==> Clean()
    {
      files, log := files[p := hash], Then(log, PutFile(p, hash, size, content));
    }

    method DeleteObjKey(p: Path)
      requires Valid()
      modifies this`files, this`log
      ensures files == old(files) - {p} && log == Then(old(log), DropFile(p)) && Valid()
      ensures old(Clean()) ==> Clean()
    {
      files, log := files - {p}, Then(log, DropFile(p));
    }

    /** In a clean store a manifest that can be read tells true sizes. */
    lemma ReadSized(p: Path)
      requires Valid() && Clean() && ReadManifest(dirs, p).Some?
      ensures Sized(digest, dirs) && SizedManifest(digest, ReadManifest(dirs, p).value)
    {
      SizesTrue(digest, log);
    }

    method WriteManifest(p: Path, m: Manifest) returns (r: Status)
      requires Valid()
      modifies this`dirs, this`log
      ensures r == if fits(m) then Ok else Err(EFBIG)
      ensures dirs == if fits(m) then old(dirs)[p := m] else old(dirs)
      ensures Valid() && (old(Clean()) && SizedManifest(digest, m) ==> Clean())
    {
      if !fits(m) {
        return Err(EFBIG);
      }
      PutDirKey(p, m);
      return Ok;
    }

    /** rewriteSubtree: relocates the manifest at `oldRoot` and, recursively,
        every reference below it. */
    method RewriteSubtree(oldRoot: Path, newRoot: Path, frames: nat) returns (r: Status)
      requires oldRoot != [] && Valid()
      modifies this`dirs, this`files, this`log
      ensures Rewrite(old(Store(dirs, files)), oldRoot, newRoot, frames) == (Store(dirs, files), r)
      ensures Valid() && log == RewriteLog(old(log), old(Store(dirs, files)), oldRoot, newRoot, frames)
      decreases frames
    {
      if frames == 0 {
        return Crashed;
      }
      if oldRoot !in dirs {
        return Err(ENOENT);
      }
      ghost var s, log0 := Store(dirs, files), log;
      var m := dirs[oldRoot];
      PutDirKey(newRoot, m);
      DeleteDirKey(oldRoot);
      for i := 0 to |m|
        invariant Valid()
        invariant Rewrite(s, oldRoot, newRoot, frames) ==
                  RewriteChildren(Store(dirs, files), m, i, oldRoot, newRoot, frames - 1)
        invariant RewriteLog(log0, s, oldRoot, newRoot, frames) ==
                  ChildrenLog(log, Store(dirs, files), m, i, oldRoot, newRoot, frames - 1)
      {
        var e := m[i];
        var oldChild, newChild := oldRoot + [e.name], newRoot + [e.name];
        if e.kind.File? {
          PutObjKey(newChild, e.hash, e.size, None);
          DeleteObjKey(oldChild);
        } else {
          r := RewriteSubtree(oldChild, newChild, frames - 1);
          if r != Ok {
            return r;
          }
        }
      }
      return Ok;
    }

    /** Mkdir. */
    method Mkdir(p: Path, mode: nat, now: int) returns (r: Status)
      requires Valid()
      modifies this
      ensures r == Err(EFBIG) ==> !AllFit()
      ensures r == Err(EFBIG) || r == (if p == [] then Err(EEXIST)
                                       else if ReadManifest(old(dirs), Parent(p)).None? then Err(ENOENT)
                                       else if EntryAt(old(dirs), p).Some? then Err(EEXIST)
                                       else Ok)
      ensures r.Err? && r.errno != EFBIG ==> dirs == old(dirs)
      ensures files == old(files)
      ensures old(WellFormed(dirs, files)) && r == Ok ==>
                && WellFormed(dirs, files)
                && EntryAt(dirs, p) == Some(Entry(name := Base(p), kind := Dir, mode := mode % 0x1000,
                                                  uid := 0, gid := 0, size := 0, mtime := now, hash := ""))
                && p in dirs && dirs[p] == []
                && forall q: Path :: q != [] && q != p ==> EntryAt(dirs, q) == EntryAt(old(dirs), q)
      ensures Valid() && (old(Clean() && WellFormed(dirs, files)) ==> Clean())
    {
      if p == [] {
        return Err(EEXIST);
      }
      var parent, base := Parent(p), Base(p);
      var pm := ReadManifest(dirs, parent);
      if pm.None? {
        return Err(ENOENT);
      }
      if FindEntry(pm.value, base).Some? {
        return Err(EEXIST);
      }
      var e := NewDir(p, mode, now);
      if Clean() {
        ReadSized(parent);
        SizedAppend(digest, pm.value, e);
      }
      r := WriteManifest(parent, pm.value + [e]);
      if r != Ok {
        return;
      }
      r := WriteManifest(p, []);
      if r == Ok && old(WellFormed(dirs, files)) {
        EntryAppended(old(dirs), old(files), dirs, files, p, e);
      }
    }

    /** Create: writes a new file or replaces an existing one. */
    method Create(p: Path, mode: nat, data: Content, now: int) returns (r: Status)
      requires Valid()
      modifies this
      ensures r == Err(EFBIG) ==> !AllFit() || |data| > MAX_FILE_SIZE
      ensures r.Err? && (r.errno != EFBIG || |data| > MAX_FILE_SIZE) ==> dirs == old(dirs) && files == old(files)
      ensures r == Err(EFBIG) || r == (if ReadManifest(old(dirs), Parent(p)).None? then Err(ENOENT)
                                       else if IsDir(old(dirs), p) then Err(EISDIR)
                                       else if |data| > MAX_FILE_SIZE then Err(EFBIG)
                                       else if p == [] then Err(EINVAL)
                                       else Ok)
      ensures old(WellFormed(dirs, files)) && r == Ok ==>
                && WellFormed(dirs, files)
                && (var previous := EntryAt(old(dirs), p);
                    EntryAt(dirs, p) == Some(Entry(name := Base(p), kind := File, mode := mode % 0x1000,
                                                   uid := if previous.Some? then previous.value.uid else 0,
                                                   gid := if previous.Some? then previous.value.gid else 0,
                                                   size := |data|, mtime := now, hash := hashOf(data))))
                && files == old(files)[p := hashOf(data)]
                && forall q: Path :: q != [] && q != p ==> EntryAt(dirs, q) == EntryAt(old(dirs), q)
      ensures Valid() && (old(Clean() && WellFormed(dirs, files)) ==> Clean())
    {
      var parent, base := Parent(p), Base(p);
      var pm := ReadManifest(dirs, parent);
      if pm.None? {
        return Err(ENOENT);
      }
      var existing := FindEntry(pm.value, base);
      if existing.Some? && existing.value.kind.Dir? {
        return Err(EISDIR);
      }
      if |data| > MAX_FILE_SIZE {
        return Err(EFBIG);
      }
      if p == [] {
        return Err(EINVAL);
      }
      var e := NewFile(p, mode, |data|, now, hashOf(data), existing);
      var m := Replace(pm.value, e);
      if Clean() {
        ReadSized(parent);
        assert data in digest && digest[data] == hashOf(data);
        SizedReplace(digest, pm.value, e);
      }
      PutObjKey(p, hashOf(data), |data|, Some(data));
      r := WriteManifest(parent, m);
      if r == Ok && old(WellFormed(dirs, files)) {
        assert NodeOk(old(dirs), old(files), p);
        assert old(dirs[Parent(p) := m]) == dirs;
        EntryReplaced(old(dirs), old(files), dirs, files, p, e);
      }
    }

    /** Remove: unlinks a file or an empty directory. */
    method Remove(p: Path) returns (r: Status)
      requires Valid()
      modifies this
      ensures r == Err(EFBIG) ==> !AllFit()
      ensures r.Err? && r.errno != EFBIG ==> dirs == old(dirs) && files == old(files)
      ensures old(WellFormed(dirs, files)) ==>
                r == Err(EFBIG) || r == (if p == [] then Err(EBUSY)
                                         else if EntryAt(old(dirs), p).None? then Err(ENOENT)
                                         else if Children(old(dirs), p) != [] then Err(ENOTEMPTY)
                                         else Ok)
      ensures old(WellFormed(dirs, files)) && r == Ok ==>
                && WellFormed(dirs, files)
                && EntryAt(dirs, p) == None
                && files == old(files) - {p}
                && forall q: Path :: q != [] && q != p ==> EntryAt(dirs, q) == EntryAt(old(dirs), q)
      ensures Valid() && (old(Clean() && WellFormed(dirs, files)) ==> Clean())
    {
      if p == [] {
        return Err(EBUSY);
      }
      var parent, base := Parent(p), Base(p);
      var m := ReadManifest(dirs, parent);
      if m.None? {
        return Err(ENOENT);
      }
      var e := FindEntry(m.value, base);
      if e.None? {
        return Err(ENOENT);
      }
      if old(WellFormed(dirs, files)) {
        assert NodeOk(dirs, files, p);
      }
      if e.value.kind.Dir? {
        var cm := ReadManifest(dirs, p);
        if cm.None? {
          return Err(ENOENT);
        }
        if |cm.value| > 0 {
          return Err(ENOTEMPTY);
        }
      }
      r := Unlist(p, e.value.kind, m.value);
      if r == Ok && old(WellFormed(dirs, files)) {
        EntryRemoved(old(dirs), old(files), dirs, files, p);
      }
    }

    /** The end of Remove: the store reference goes, and then the entry. */
    method Unlist(p: Path, kind: Kind, m: Manifest) returns (r: Status)
      requires Valid() && ReadManifest(dirs, Parent(p)) == Some(m) && p != []
      modifies this
      ensures r == if fits(Without(m, Base(p))) then Ok else Err(EFBIG)
      ensures files == if kind.Dir? then old(files) else old(files) - {p}
      ensures r == Ok ==> dirs == (if kind.Dir? then old(dirs) - {p} else old(dirs))[Parent(p) := Without(m, Base(p))]
      ensures Valid() && (old(Clean()) ==> Clean())
    {
      if Clean() {
        ReadSized(Parent(p));
        SizedWithout(digest, m, Base(p));
      }
      if kind.Dir? {
        DeleteDirKey(p);
      } else {
        DeleteObjKey(p);
      }
      var entries := RemoveFrom(m, Base(p));
      r := WriteManifest(Parent(p), entries);
    }

    /** Link: a second entry, and a second store reference, for a file's content. */
    method Link(src: Path, dst: Path) returns (r: Status)
      requires Valid()
      modifies this
      ensures r == Err(EFBIG) ==> !AllFit()
      ensures r.Err? && r.errno != EFBIG ==> dirs == old(dirs) && files == old(files)
      ensures r == Err(EFBIG) ||
              r == (if EntryAt(old(dirs), src).None? then Err(ENOENT)
                    else if EntryAt(old(dirs), src).value.kind.Dir? then Err(EPERM)
                    else if ReadManifest(old(dirs), Parent(dst)).None? then Err(ENOENT)
                    else if EntryAt(old(dirs), dst).Some? then Err(EEXIST)
                    else if dst == [] then Err(EINVAL)
                    else Ok)
      ensures old(WellFormed(dirs, files)) && r == Ok ==>
                && WellFormed(dirs, files)
                && EntryAt(dirs, dst) == Some(EntryAt(old(dirs), src).value.(name := Base(dst)))
                && files == old(files)[dst := EntryAt(old(dirs), src).value.hash]
                && (src != [] ==> src in old(files) && files[dst] == old(files)[src])
                && forall q: Path :: q != [] && q != dst ==> EntryAt(dirs, q) == EntryAt(old(dirs), q)
      ensures Valid() && (old(Clean() && WellFormed(dirs, files)) ==> Clean())
    {
      var sm := ReadManifest(dirs, Parent(src));
      if sm.None? {
        return Err(ENOENT);
      }
      var e := FindEntry(sm.value, Base(src));
      if e.None? {
        return Err(ENOENT);
      }
      if e.value.kind != File {
        return Err(EPERM);
      }
      var dm := ReadManifest(dirs, Parent(dst));
      if dm.None? {
        return Err(ENOENT);
      }
      if FindEntry(dm.value, Base(dst)).Some? {
        return Err(EEXIST);
      }
      if dst == [] {
        return Err(EINVAL);
      }
      var linked := e.value.(name := Base(dst));
      if Clean() {
        ReadSized(Parent(src));
        ReadSized(Parent(dst));
        SizedEntry(digest, sm.value, Base(src));
        SizedAppend(digest, dm.value, linked);
      }
      if WellFormed(dirs, files) {
        LinkSource(src, e.value);
      }
      PutObjKey(dst, e.value.hash, e.value.size, None);
      r := WriteManifest(Parent(dst), dm.value + [linked]);
      if r == Ok && old(WellFormed(dirs, files)) {
        assert NodeOk(old(dirs), old(files), dst);
        if src != [] {
          assert NodeOk(old(dirs), old(files), src);
        }
        EntryAppended(old(dirs), old(files), dirs, files, dst, linked);
      }
    }

    /** Rename. */
    method Rename(src: Path, dst: Path, frames: nat) returns (r: Status)
      requires Valid()
      modifies this
      ensures r == Err(EFBIG) ==> !AllFit()
      ensures old(WellFormed(dirs, files)) ==> RenameOutcome(old(dirs), old(files), dirs, files, src, dst, frames, r)
      ensures src == [] || dst == [] ==> r == Err(EINVAL) && dirs == old(dirs) && files == old(files)
      ensures src != [] && dst != [] && EntryAt(old(dirs), src).None? ==>
                r == Err(ENOENT) && dirs == old(dirs) && files == old(files)
      ensures Valid()
      ensures old(Clean() && WellFormed(dirs, files)) ==>
                RenameSafe(old(dirs), src, dst) || OntoParent(old(dirs), src, dst) ==> Clean()
    {
      if src == [] || dst == [] {
        return Err(EINVAL);
      }
      ghost var d, f := dirs, files;
      ghost var wf := WellFormed(d, f);
      var sm := ReadManifest(dirs, Parent(src));
      if sm.None? {
        return Err(ENOENT);
      }
      var found := FindEntry(sm.value, Base(src));
      if found.None? {
        return Err(ENOENT);
      }
      var e := found.value;
      if Clean() {
        ReadSized(Parent(src));
        assert SizedManifest(digest, [e]);
      }
      if wf && (RenameSafe(d, src, dst) || OntoParent(d, src, dst)) {
        CleanMove(src, dst, e, frames);
      }
      if e.kind.Dir? {
        r := RewriteSubtree(src, dst, frames);
        if r != Ok {
          if wf && r == Crashed {
            RenameCrashed(d, f, dirs, files, src, dst, frames);
          } else if wf {
            DirAbandoned(d, f, dirs, files, src, dst, frames, r, r);
          }
          return;
        }
      }
      ghost var d1, f1 := dirs, files;
      r := Relink(src, dst, sm.value, e);
      if wf && r == Ok {
        RenameFinished(d, f, d1, f1, dirs, files, src, dst, e, frames);
      } else if wf && r != Err(EFBIG) {
        if e.kind.Dir? {
          DirAbandoned(d, f, d1, f1, src, dst, frames, Ok, r);
        } else {
          FileAbandoned(d, f, files, src, dst, e, frames, r);
        }
      }
    }

    /** A rename that keeps the tree puts references only of what is stored. */
    lemma CleanMove(src: Path, dst: Path, e: Entry, frames: nat)
      requires WellFormed(dirs, files) && (RenameSafe(dirs, src, dst) || OntoParent(dirs, src, dst)) && Valid()
      requires src != [] && dst != [] && EntryAt(dirs, src) == Some(e)
      ensures e.kind.File? ==> src != dst && src in files && files[src] == e.hash
      ensures e.kind.Dir? && Clean() ==> AllRight(digest, RewriteLog(log, Store(dirs, files), src, dst, frames))
    {
      assert NodeOk(dirs, files, src);
      if e.kind.Dir? && Clean() {
        if RenameSafe(dirs, src, dst) {
          DirReady(dirs, files, src, dst);
        } else {
          assert Below(src, dst) && !Below(src, src);
          ParentMoves(dirs, files, src, dst);
        }
        RewriteRight(digest, log, Store(dirs, files), src, dst, frames);
      }
    }

    /** The part of Rename after a directory's subtree was re-keyed: the target
        gives way, a file's reference moves, and the parents' manifests change. */
    method Relink(src: Path, dst: Path, sm: Manifest, e: Entry) returns (r: Status)
      requires dst != []
      requires Valid()
      modifies this
      ensures r == Err(EFBIG) ==> !AllFit()
      ensures r != Crashed
      ensures r == Ok ==> RenameEnd(sm, old(dirs), old(files), dirs, files, src, dst, e)
      ensures r.Err? && r.errno != EFBIG ==>
                && dirs == old(dirs) && Stopped(dirs, dst, e.kind)
                && if EntryAt(dirs, dst).Some? then r == Err(EINVAL) && files == old(files)
                   else files == if e.kind.File? then old(files)[dst := e.hash] - {src} else old(files)
      ensures Valid()
      ensures old(Clean()) && SizedManifest(digest, sm) && SizedManifest(digest, [e]) ==>
                (e.kind.File? ==> src != dst && src in old(files) && old(files)[src] == e.hash) ==> Clean()
    {
      r := DropTarget(dst, e.kind);
      if r != Ok {
        return;
      }
      if e.kind.File? {
        assert e in [e];
        assert src != dst && src in old(files) && old(files)[src] == e.hash ==> src in files && files[src] == e.hash;
        PutObjKey(dst, e.hash, e.size, None);
        DeleteObjKey(src);
        assert files == old(files)[dst := e.hash] - {src};
      }
      assert |Parent(dst)| < |dst|;
      assert SameAt(dirs, Parent(dst), old(dirs), Parent(dst));
      r := ListMoved(src, dst, sm, e.(name := Base(dst)));
    }

    /** The overwrite step of Rename: an existing target of the same kind loses
        its store reference. */
    method DropTarget(dst: Path, kind: Kind) returns (r: Status)
      requires Valid()
      modifies this
      ensures var target := EntryAt(old(dirs), dst);
              if target.Some? && target.value.kind != kind
              then r == Err(EINVAL) && dirs == old(dirs) && files == old(files)
              else && r == Ok
                   && dirs == (if target.Some? && kind.Dir? then old(dirs) - {dst} else old(dirs))
                   && files == (if target.Some? && kind.File? then old(files) - {dst} else old(files))
      ensures Valid() && (old(Clean()) ==> Clean())
    {
      var dm := ReadManifest(dirs, Parent(dst));
      if dm.Some? {
        var existing := FindEntry(dm.value, Base(dst));
        if existing.Some? {
          if existing.value.kind != kind {
            return Err(EINVAL);
          }
          if existing.value.kind.File? {
            DeleteObjKey(dst);
          } else {
            DeleteDirKey(dst);
          }
        }
      }
      return Ok;
    }

    /** The last step of Rename: the entry leaves the source's parent, whose
        manifest `sm` was read at the start, and enters the target's parent. */
    method ListMoved(src: Path, dst: Path, sm: Manifest, moved: Entry) returns (r: Status)
      requires Valid()
      modifies this`dirs, this`log
      ensures r == Err(EFBIG) ==> !AllFit()
      ensures r != Crashed
      ensures r == Ok ==> ReadManifest(old(dirs), Parent(dst)).Some?
      ensures r.Err? && r.errno != EFBIG ==> ReadManifest(old(dirs), Parent(dst)).None? && dirs == old(dirs)
      ensures r == Ok && Parent(src) == Parent(dst) ==>
                dirs == old(dirs)[Parent(src) :=
                    Without(Without(Children(old(dirs), Parent(src)), Base(src)), Base(dst)) + [moved]]
      ensures r == Ok && Parent(src) != Parent(dst) ==>
                dirs == old(dirs)[Parent(dst) := Without(Children(old(dirs), Parent(dst)), Base(dst)) + [moved]]
                                 [Parent(src) := Without(sm, Base(src))]
      ensures Valid() && (old(Clean()) && SizedManifest(digest, sm) && SizedManifest(digest, [moved]) ==> Clean())
    {
      var sParent, sBase, dParent, dBase := Parent(src), Base(src), Parent(dst), Base(dst);
      ghost var sized := Clean() && SizedManifest(digest, sm) && SizedManifest(digest, [moved]);
      assert moved in [moved];
      if dParent == sParent {
        var m := ReadManifest(dirs, sParent);
        if m.None? {
          return Err(ENOENT);
        }
        var entries := RemoveFrom(m.value, sBase);
        entries := RemoveFrom(entries, dBase);
        if sized {
          ReadSized(sParent);
          SizedWithout(digest, m.value, sBase);
          SizedWithout(digest, Without(m.value, sBase), dBase);
          SizedAppend(digest, entries, moved);
        }
        r := WriteManifest(sParent, entries + [moved]);
      } else {
        var dm := ReadManifest(dirs, dParent);
        if dm.None? {
          return Err(ENOENT);
        }
        var entries := RemoveFrom(dm.value, dBase);
        if sized {
          ReadSized(dParent);
          SizedWithout(digest, dm.value, dBase);
          SizedAppend(digest, entries, moved);
          SizedWithout(digest, sm, sBase);
        }
        r := WriteManifest(dParent, entries + [moved]);
        if r != Ok {
          return;
        }
        entries := RemoveFrom(sm, sBase);
        r := WriteManifest(sParent, entries);
      }
    }

    /** Any sequence of operations keeps a well-formed tree well formed until one of
        them ends that: one cut short because a manifest grew too large, a rename that
        does not come back, or one that is neither safe nor onto a parent that agrees,
        and that one always does. `good` operations leave the tree well formed;
        `before` and `after` are the trees around the next one, whose result is `r`. */
    method Run(ops: seq<Op>, frames: nat)
      returns (done: nat, ghost good: nat, ghost r: Status, ghost before: Store, ghost after: Store)
      requires Valid() && Clean() && WellFormed(dirs, files)
      modifies this
      ensures Valid() && good <= done <= |ops|
      ensures good == |ops| ==> WellFormed(dirs, files) && Clean()
      ensures good < |ops| ==> WellFormed(before.dirs, before.files) && EndsRun(before, after, ops[good], frames, r)
      ensures good < |ops| && r == Err(EFBIG) ==> !AllFit()
    {
      done, good, r, before, after := 0, 0, Ok, Store(dirs, files), Store(dirs, files);
      while done < |ops|
        invariant Valid() && good <= done <= |ops|
        invariant good == done ==> WellFormed(dirs, files) && Clean()
        invariant good < done ==> WellFormed(before.dirs, before.files) && EndsRun(before, after, ops[good], frames, r)
        invariant good < done && r == Err(EFBIG) ==> !AllFit()
      {
        ghost var s := Store(dirs, files);
        var result := Execute(ops[done], frames);
        if good == done {
          if result != Crashed && WellFormed(dirs, files) && Clean() {
            good := done + 1;
          } else {
            r, before, after := result, s, Store(dirs, files);
          }
        }
        done := done + 1;
        if result == Crashed {
          return;
        }
      }
    }

    method Execute(op: Op, frames: nat) returns (r: Status)
      requires Valid()
      modifies this
      ensures r == Err(EFBIG) ==> !AllFit() || Oversized(op)
      ensures Oversized(op) && r == Err(EFBIG) ==> dirs == old(dirs) && files == old(files)
      ensures old(WellFormed(dirs, files)) ==>
                || (r != Crashed && WellFormed(dirs, files))
                || EndsRun(old(Store(dirs, files)), Store(dirs, files), op, frames, r)
      ensures Valid()
      ensures old(Clean() && WellFormed(dirs, files)) ==>
                Clean() || EndsRun(old(Store(dirs, files)), Store(dirs, files), op, frames, r)
    {
      match op {
        case Mkdir(p, mode, now) => r := Mkdir(p, mode, now);
        case Create(p, mode, data, now) => r := Create(p, mode, data, now);
        case Remove(p) => r := Remove(p);
        case Link(src, dst) => r := Link(src, dst);
        case Rename(src, dst) => r := Rename(src, dst, frames);
      }
    }
  }

  /** A file too large to be created: that alone changes nothing. */
  predicate Oversized(op: Op) {
    op.Create? && |op.data| > MAX_FILE_SIZE
  }

  /** How an operation on a well-formed tree can end its being so. */
  ghost predicate EndsRun(before: Store, after: Store, op: Op, frames: nat, r: Status) {
    if r == Err(EFBIG) then !Oversized(op)
    else
      && op.Rename?
      && if r == Crashed then Circular(before.dirs, op.src, op.dst) || !Roomy(before.dirs, op.src, frames)
         else
           && !RenameSafe(before.dirs, op.src, op.dst) && !OntoParent(before.dirs, op.src, op.dst)
           && !WellFormed(after.dirs, after.files)
  }

  /** removeEntry on a manifest as it was read. */
  method RemoveFrom(m: Manifest, base: string) returns (r: Manifest)
    ensures r == Without(m, base)
  {
    var entries := new Entry[|m|](i requires 0 <= i < |m| => m[i]);
    assert entries[..] == m;
    var n := RemoveEntry(entries, base);
    r := entries[..n];
  }
}
