module MomoRename {

  // Rename of src/momofs/momofs.go on a well-formed tree: exactly when it leaves the tree
  // well formed, what every path resolves to afterwards, and exactly when it does not
  // come back.

  import opened MomoTree
  import opened MomoRewrite

  // ---- the cases ----

  /** The guard under which Rename does what it promises. */
  predicate RenameSafe(d: map<Path, Manifest>, src: Path, dst: Path) {
    src == [] || dst == [] ||
    match EntryAt(d, src)
    case None => true
    case Some(e) =>
      && ReadManifest(d, Parent(dst)).Some?
      && (if e.kind.File? then src != dst else EntryAt(d, dst).None? && !Below(dst, src))
  }

  predicate IsDir(d: map<Path, Manifest>, p: Path) {
    EntryAt(d, p).Some? && EntryAt(d, p).value.kind.Dir?
  }

  /** A directory is renamed to a directory below it. */
  predicate Circular(d: map<Path, Manifest>, src: Path, dst: Path) {
    src != [] && IsDir(d, src) && Below(dst, src) && IsDir(d, dst)
  }

  /** The stack holds the subtree of `src`, with one frame to spare. */
  ghost predicate Roomy(d: map<Path, Manifest>, src: Path, frames: nat) {
    frames > 0 && Shallow(d, src, None, |src| + frames)
  }

  function RenameStatus(d: map<Path, Manifest>, src: Path, dst: Path): Status {
    if src == [] || dst == [] then Err(EINVAL)
    else if EntryAt(d, src).None? then Err(ENOENT)
    else if EntryAt(d, dst).Some? && EntryAt(d, dst).value.kind != EntryAt(d, src).value.kind then Err(EINVAL)
    else Ok
  }

  /** In a well-formed tree every proper ancestor of an existing node is a directory. */
  lemma {:induction false} AncestorsAreDirs(d: map<Path, Manifest>, f: map<Path, string>, p: Path, a: Path)
    requires WellFormed(d, f) && EntryAt(d, p).Some? && Below(p, a) && a != []
    ensures a in d && IsDir(d, a)
    decreases |p|
  {
    var u := Parent(p);
    assert |u| == |p| - 1 && Within(u, a);
    assert NodeOk(d, f, u);
    if u != a {
      AncestorsAreDirs(d, f, u, a);
    }
  }

  lemma {:induction false} WellFormedClosed(d: map<Path, Manifest>, f: map<Path, string>, r: Path)
    requires WellFormed(d, f)
    ensures ClosedIn(d, r)
  {
    forall q | q in d && Within(q, r) ensures ClosedAt(d, q) {
      forall e | e in d[q] && e.kind.Dir? ensures q + [e.name] in d {
        var i :| 0 <= i < |d[q]| && d[q][i] == e;
        FindUnique(d[q], i);
        ParentChild(q, e.name);
        assert NodeOk(d, f, q + [e.name]);
      }
    }
  }

  // ---- when it does not come back ----

  lemma {:induction false} CircularLink(d: map<Path, Manifest>, f: map<Path, string>, src: Path, t: Path, k: nat)
    requires WellFormed(d, f) && src != [] && k < |t| && IsDir(d, src) && IsDir(d, src + t)
    ensures LinkTo(d, src, t, k)
  {
    var q, dst := src + t[..k], src + t;
    var c := q + [t[k]];
    Onward(src, t, k);
    ParentChild(q, t[k]);
    if c != dst {
      AncestorsAreDirs(d, f, dst, c);
    }
    assert IsDir(d, c) && q in d;
    var j := FindsFirst(d[q], t[k]);
    forall i | 0 <= i < j ensures Awaits(d, d[q][i], q) {
      WellFormedClosed(d, f, q);
      assert Within(q, q) && ClosedAt(d, q) && d[q][i] in d[q];
      WellFormedClosed(d, f, q + [d[q][i].name]);
    }
    assert LinkAt(d, q, t[k], j);
  }

  /** Renaming a directory to a directory below it exhausts any stack. */
  lemma {:induction false} CircularCrashes(d: map<Path, Manifest>, f: map<Path, string>, src: Path, dst: Path,
                                           frames: nat)
    requires WellFormed(d, f) && Circular(d, src, dst)
    ensures Rewrite(Store(d, f), src, dst, frames).1 == Crashed
  {
    var t := dst[|src|..];
    assert dst == src + t;
    WellFormedClosed(d, f, dst);
    forall i | 0 <= i < |t| ensures LinkTo(d, src, t, i) {
      CircularLink(d, f, src, t, i);
    }
    RewriteEndless(Store(d, f), src, t, frames);
  }

  lemma {:induction false} ListedIsDir(d: map<Path, Manifest>, f: map<Path, string>, p: Path)
    requires WellFormed(d, f)
    ensures ListsDir(d, p) ==> IsDir(d, p)
  {
    if ListsDir(d, p) {
      var m := d[Parent(p)];
      var e :| e in m && e.name == Base(p) && e.kind.Dir?;
      var i :| 0 <= i < |m| && m[i] == e;
      FindUnique(m, i);
    }
  }

  /** Otherwise a stack that holds the subtree is enough. */
  lemma {:induction false} OthersEnd(d: map<Path, Manifest>, f: map<Path, string>, src: Path, dst: Path, frames: nat)
    requires WellFormed(d, f) && src != [] && dst != [] && IsDir(d, src) && !Circular(d, src, dst) &&
             Roomy(d, src, frames)
    ensures Rewrite(Store(d, f), src, dst, frames).1 != Crashed
  {
    var s := Store(d, f);
    if Below(dst, src) {
      ListedIsDir(d, f, dst);
      RewriteEnds(s, src, dst, frames, Some(dst));
    } else {
      RewriteEnds(s, src, dst, frames, None);
    }
  }

  // ---- where the paths resolve ----

  /** Whatever was stored at or below `src` is now at the same position below
      `dst`; nothing else differs. */
  ghost predicate Relocated<V>(m0: map<Path, V>, m1: map<Path, V>, src: Path, dst: Path) {
    forall p: Path ::
      if Within(p, src) then p !in m1
      else if Within(p, dst) then SameAt(m1, p, m0, Rebase(p, dst, src))
      else SameAt(m1, p, m0, p)
  }

  lemma {:induction false} OverlaidVacant<V>(m0: map<Path, V>, m1: map<Path, V>, src: Path, dst: Path)
    requires Overlaid(m0, m1, src, dst) && Vacant(m0, dst)
    ensures Relocated(m0, m1, src, dst)
  {
    forall p: Path
      ensures if Within(p, src) then p !in m1
              else if Within(p, dst) then SameAt(m1, p, m0, Rebase(p, dst, src))
              else SameAt(m1, p, m0, p)
    {
      assert OverAt(m0, m1, src, dst, p);
    }
  }

  /** What a parent's manifest holds after `src` became `moved` at `dst`. */
  ghost predicate HoldsMove(d: map<Path, Manifest>, m: Manifest, parent: Path, src: Path, dst: Path, moved: Entry) {
    && UniqueNames(m)
    && forall n: string :: FindEntry(m, n) ==
                           if parent == Parent(dst) && n == Base(dst) then Some(moved)
                           else if parent == Parent(src) && n == Base(src) then None
                           else FindEntry(Children(d, parent), n)
  }

  /** The entry every path resolves to after the move. */
  function EntryAfterMove(d: map<Path, Manifest>, src: Path, dst: Path, moved: Entry, q: Path): Option<Entry> {
    if q == dst then Some(moved)
    else if Within(q, dst) then EntryAt(d, Rebase(q, dst, src))
    else if Within(q, src) then None
    else EntryAt(d, q)
  }

  /** The subtree at `src` was relocated and both parents hold the move. */
  ghost predicate Moved(d: map<Path, Manifest>, f: map<Path, string>, d1: map<Path, Manifest>, f1: map<Path, string>,
                        d2: map<Path, Manifest>, src: Path, dst: Path, moved: Entry) {
    && WellFormed(d, f) && src != [] && dst != [] && Incomparable(src, dst)
    && Relocated(d, d1, src, dst) && Relocated(f, f1, src, dst)
    && EntryAt(d, src) == Some(moved.(name := Base(src)))
    && (forall q: Path :: q != Parent(src) && q != Parent(dst) ==> SameAt(d2, q, d1, q))
    && Parent(src) in d2 && HoldsMove(d, d2[Parent(src)], Parent(src), src, dst, moved)
    && Parent(dst) in d2 && HoldsMove(d, d2[Parent(dst)], Parent(dst), src, dst, moved)
    && ReadManifest(d, Parent(src)).Some? && ReadManifest(d, Parent(dst)).Some?
  }

  lemma {:induction false} NodeBelowDst(d: map<Path, Manifest>, f: map<Path, string>, d1: map<Path, Manifest>,
                                        f1: map<Path, string>, d2: map<Path, Manifest>, src: Path, dst: Path,
                                        moved: Entry, q: Path)
    requires Moved(d, f, d1, f1, d2, src, dst, moved) && Below(q, dst)
    ensures EntryAt(d2, q) == EntryAt(d, Rebase(q, dst, src)) && NodeOk(d2, f1, q)
  {
    ParentsOutside(src, dst);
    var u, q0 := Parent(q), Rebase(q, dst, src);
    assert Within(u, dst) && q[|dst|..] == u[|dst|..] + [Base(q)];
    assert q0 == Rebase(u, dst, src) + [Base(q)];
    ParentChild(Rebase(u, dst, src), Base(q));
    if Within(u, src) { BothWithin(u, src, dst); }
    if Within(q, src) { BothWithin(q, src, dst); }
    assert SameAt(d2, u, d1, u) && SameAt(d1, u, d, Parent(q0));
    assert SameAt(d2, q, d1, q) && SameAt(d1, q, d, q0) && SameAt(f1, q, f, q0);
    assert NodeOk(d, f, q0);
  }

  /** Every path resolves as it should after `src` was renamed to `dst`. */
  ghost predicate MoveResolved(d: map<Path, Manifest>, d': map<Path, Manifest>, src: Path, dst: Path)
    requires EntryAt(d, src).Some?
  {
    forall q: Path :: q != [] ==>
                        EntryAt(d', q) == EntryAfterMove(d, src, dst, EntryAt(d, src).value.(name := Base(dst)), q)
  }

  lemma {:induction false} NodeAtEnds(d: map<Path, Manifest>, f: map<Path, string>, d1: map<Path, Manifest>,
                                      f1: map<Path, string>, d2: map<Path, Manifest>, src: Path, dst: Path,
                                      moved: Entry, q: Path)
    requires Moved(d, f, d1, f1, d2, src, dst, moved) && (q == dst || Within(q, src))
    ensures EntryAt(d2, q) == (if q == dst then Some(moved) else None) && NodeOk(d2, f1, q)
  {
    ParentsOutside(src, dst);
    var u := Parent(q);
    assert q != [];
    assert SameAt(d2, q, d1, q);
    if q == dst {
      assert Rebase(dst, dst, src) == src;
      assert NodeOk(d, f, src);
      assert SameAt(d1, dst, d, src) && SameAt(f1, dst, f, src);
      assert FindEntry(d2[u], Base(dst)) == Some(moved);
    } else if q == src {
      SamePath(src, dst);
      assert FindEntry(d2[u], Base(src)) == None;
    } else {
      assert Within(u, src);
      assert SameAt(d2, u, d1, u);
    }
  }

  lemma {:induction false} NodeElsewhere(d: map<Path, Manifest>, f: map<Path, string>, d1: map<Path, Manifest>,
                                         f1: map<Path, string>, d2: map<Path, Manifest>, src: Path, dst: Path,
                                         moved: Entry, q: Path)
    requires Moved(d, f, d1, f1, d2, src, dst, moved) && q != [] && !Within(q, src) && !Within(q, dst)
    ensures EntryAt(d2, q) == EntryAt(d, q) && NodeOk(d2, f1, q)
  {
    var u := Parent(q);
    assert Within(q, u);
    SamePath(q, src);
    SamePath(q, dst);
    WithinTransitive(q, u, src);
    WithinTransitive(q, u, dst);
    assert NodeOk(d, f, q);
    assert SameAt(d1, u, d, u) && SameAt(d1, q, d, q) && SameAt(f1, q, f, q);
    if u == Parent(src) || u == Parent(dst) {
      assert HoldsMove(d, d2[u], u, src, dst, moved);
      assert FindEntry(d2[u], Base(q)) == FindEntry(Children(d, u), Base(q));
    } else {
      assert SameAt(d2, u, d1, u);
    }
    if q != Parent(src) && q != Parent(dst) {
      assert SameAt(d2, q, d1, q);
    }
  }

  /** Renaming keeps the tree well formed, `dst/s` resolves as
      `src/s` did for every suffix, and every other path as before. */
  lemma {:induction false} NodeRenamed(d: map<Path, Manifest>, f: map<Path, string>, d1: map<Path, Manifest>,
                                       f1: map<Path, string>, d2: map<Path, Manifest>, src: Path, dst: Path,
                                       moved: Entry)
    requires Moved(d, f, d1, f1, d2, src, dst, moved)
    requires moved.name == Base(dst)
    ensures WellFormed(d2, f1) && MoveResolved(d, d2, src, dst)
  {
    forall q: Path | q != []
      ensures EntryAt(d2, q) == EntryAfterMove(d, src, dst, moved, q) && NodeOk(d2, f1, q)
    {
      if Below(q, dst) {
        NodeBelowDst(d, f, d1, f1, d2, src, dst, moved, q);
      } else if q == dst || Within(q, src) {
        NodeAtEnds(d, f, d1, f1, d2, src, dst, moved, q);
      } else {
        NodeElsewhere(d, f, d1, f1, d2, src, dst, moved, q);
      }
    }
    ParentsOutside(src, dst);
    forall q <- d2 ensures UniqueNames(d2[q]) {
      if q != Parent(src) && q != Parent(dst) {
        assert SameAt(d2, q, d1, q);
        if Within(q, dst) {
          if Within(q, src) { BothWithin(q, src, dst); }
          assert SameAt(d1, q, d, Rebase(q, dst, src));
        } else {
          assert SameAt(d1, q, d, q);
        }
      }
    }
    assert SameAt(f1, [], f, []);
  }

  lemma {:induction false} FileRelocated(d: map<Path, Manifest>, f: map<Path, string>, f1: map<Path, string>, src: Path,
                                         dst: Path)
    requires WellFormed(d, f) && src != [] && dst != [] && src in f && dst !in d && Incomparable(src, dst)
    requires f1 == f[dst := f[src]] - {src}
    ensures Relocated(d, d, src, dst) && Relocated(f, f1, src, dst)
  {
    assert NodeOk(d, f, src);
    forall p: Path
      ensures Within(p, src) ==> p !in d && (p in f ==> p == src)
      ensures Within(p, dst) ==>
                && p !in d && (p in f ==> p == dst)
                && SameAt(f1, p, f, Rebase(p, dst, src)) && Rebase(p, dst, src) !in d
    {
      if Below(p, src) { VacantBelow(d, f, src, p); }
      if Within(p, dst) {
        if p == dst {
          assert Rebase(p, dst, src) == src;
        } else {
          VacantBelow(d, f, dst, p);
          var q := Rebase(p, dst, src);
          assert Within(q, src) && |q| > |src|;
          VacantBelow(d, f, src, q);
        }
      }
    }
    forall p: Path
      ensures if Within(p, src) then p !in d
              else if Within(p, dst) then SameAt(d, p, d, Rebase(p, dst, src)) else SameAt(d, p, d, p)
      ensures if Within(p, src) then p !in f1
              else if Within(p, dst) then SameAt(f1, p, f, Rebase(p, dst, src)) else SameAt(f1, p, f, p)
    {
    }
  }

  /** The manifests Rename writes hold the move. */
  lemma {:induction false} ManifestsHoldMove(d: map<Path, Manifest>, src: Path, dst: Path, moved: Entry)
    requires moved.name == Base(dst)
    requires UniqueNames(Children(d, Parent(src))) && UniqueNames(Children(d, Parent(dst)))
    ensures var m := Children(d, Parent(src));
            Parent(src) == Parent(dst) ==>
              HoldsMove(d, Without(Without(m, Base(src)), Base(dst)) + [moved], Parent(src), src, dst, moved)
    ensures Parent(src) != Parent(dst) ==>
              && HoldsMove(d, Without(Children(d, Parent(src)), Base(src)), Parent(src), src, dst, moved)
              && HoldsMove(d, Without(Children(d, Parent(dst)), Base(dst)) + [moved], Parent(dst), src, dst, moved)
  {
    var sm, dm := Children(d, Parent(src)), Children(d, Parent(dst));
    UniqueWithout(sm, Base(src));
    UniqueWithout(Without(sm, Base(src)), Base(dst));
    UniqueWithout(dm, Base(dst));
    forall n: string
      ensures FindEntry(Without(sm, Base(src)), n) == (if n == Base(src) then None else FindEntry(sm, n))
      ensures FindEntry(Without(dm, Base(dst)) + [moved], n) ==
              (if n == Base(dst) then Some(moved) else FindEntry(dm, n))
      ensures FindEntry(Without(Without(sm, Base(src)), Base(dst)) + [moved], n) ==
              (if n == Base(dst) then Some(moved) else if n == Base(src) then None else FindEntry(sm, n))
    {
      FindWithout(sm, Base(src), n);
      FindWithout(Without(sm, Base(src)), Base(dst), n);
      FindWithout(dm, Base(dst), n);
      FindSnoc(Without(dm, Base(dst)), moved, n);
      FindSnoc(Without(Without(sm, Base(src)), Base(dst)), moved, n);
    }
  }

  lemma {:induction false} NotBelowFile(d: map<Path, Manifest>, f: map<Path, string>, src: Path, dst: Path)
    requires WellFormed(d, f) && src != [] && dst != [] && src != dst && src in f && dst !in d
    requires ReadManifest(d, Parent(dst)).Some?
    ensures Incomparable(src, dst)
  {
    assert NodeOk(d, f, src);
    if Within(dst, src) {
      if Parent(dst) != src {
        VacantBelow(d, f, src, Parent(dst));
      }
    }
    if Within(src, dst) {
      VacantBelow(d, f, dst, src);
    }
  }

  lemma {:induction false} TargetEntry(d1: map<Path, Manifest>, d2: map<Path, Manifest>, f1: map<Path, string>,
                                       f2: map<Path, string>, d: map<Path, Manifest>, src: Path, dst: Path, e: Entry)
    requires src != [] && dst != [] && RenameEnd(Children(d, Parent(src)), d1, f1, d2, f2, src, dst, e)
    ensures EntryAt(d2, dst) == Some(e.(name := Base(dst)))
  {
    var moved := e.(name := Base(dst));
    var m := d2[Parent(dst)];
    var rest := m[..|m| - 1];
    assert m == rest + [moved];
    FindSnoc(rest, moved, Base(dst));
  }

  /** The manifests of the two parents, in terms of the tree before. */
  lemma {:induction false} EndManifests(d: map<Path, Manifest>, d1: map<Path, Manifest>, f1: map<Path, string>,
                                        d2: map<Path, Manifest>, f2: map<Path, string>, src: Path, dst: Path, e: Entry)
    requires RenameEnd(Children(d, Parent(src)), d1, f1, d2, f2, src, dst, e) &&
             (e.kind.Dir? ==> EntryAt(d1, dst).None?)
    requires SameAt(d1, Parent(src), d, Parent(src)) && SameAt(d1, Parent(dst), d, Parent(dst))
    ensures forall q: Path :: q != Parent(src) && q != Parent(dst) ==> SameAt(d2, q, d1, q)
    ensures Parent(src) in d2 && Parent(dst) in d2
    ensures d2[Parent(src)] == SourceManifest(d, src, dst, e.(name := Base(dst)))
    ensures d2[Parent(dst)] == TargetManifest(d, src, dst, e.(name := Base(dst)))
  {}

  /** What the parent of the source lists after the move. */
  ghost function SourceManifest(d: map<Path, Manifest>, src: Path, dst: Path, moved: Entry): Manifest {
    if Parent(src) == Parent(dst) then TargetManifest(d, src, dst, moved)
    else Without(Children(d, Parent(src)), Base(src))
  }

  /** What the parent of the target lists after the move. */
  ghost function TargetManifest(d: map<Path, Manifest>, src: Path, dst: Path, moved: Entry): Manifest {
    if Parent(src) == Parent(dst) then Without(Without(Children(d, Parent(src)), Base(src)), Base(dst)) + [moved]
    else Without(Children(d, Parent(dst)), Base(dst)) + [moved]
  }

  lemma {:induction false} RenameManifests(d: map<Path, Manifest>, d1: map<Path, Manifest>, f1: map<Path, string>,
                        d2: map<Path, Manifest>, f2: map<Path, string>, src: Path, dst: Path, e: Entry)
    requires RenameEnd(Children(d, Parent(src)), d1, f1, d2, f2, src, dst, e) &&
             (e.kind.Dir? ==> EntryAt(d1, dst).None?)
    requires SameAt(d1, Parent(src), d, Parent(src)) && SameAt(d1, Parent(dst), d, Parent(dst))
    requires UniqueNames(Children(d, Parent(src))) && UniqueNames(Children(d, Parent(dst)))
    ensures forall q: Path :: q != Parent(src) && q != Parent(dst) ==> SameAt(d2, q, d1, q)
    ensures Parent(src) in d2 && HoldsMove(d, d2[Parent(src)], Parent(src), src, dst, e.(name := Base(dst)))
    ensures Parent(dst) in d2 && HoldsMove(d, d2[Parent(dst)], Parent(dst), src, dst, e.(name := Base(dst)))
  {
    EndManifests(d, d1, f1, d2, f2, src, dst, e);
    ManifestsHoldMove(d, src, dst, e.(name := Base(dst)));
  }

  // ---- the end of a rename ----

  /** The state Rename leaves when it runs to its end, from the state `d1`, `f1`
      after the subtree was re-keyed. */
  ghost predicate RenameEnd(sm: Manifest, d1: map<Path, Manifest>, f1: map<Path, string>,
                            d2: map<Path, Manifest>, f2: map<Path, string>, src: Path, dst: Path, e: Entry) {
    var moved := e.(name := Base(dst));
    var target := EntryAt(d1, dst);
    var d1' := if e.kind.Dir? && target.Some? then d1 - {dst} else d1;
    && f2 == (if e.kind.File? then f1[dst := e.hash] - {src} else f1)
    && (target.Some? ==> target.value.kind == e.kind)
    && ReadManifest(d1, Parent(dst)).Some?
    && d2 == if Parent(src) == Parent(dst)
             then d1'[Parent(src) := Without(Without(Children(d1', Parent(src)), Base(src)), Base(dst)) + [moved]]
             else d1'[Parent(dst) := Without(Children(d1', Parent(dst)), Base(dst)) + [moved]]
                     [Parent(src) := Without(sm, Base(src))]
  }

  /** What is known when Rename reaches its last manifest write. */
  ghost predicate RenameRan(d: map<Path, Manifest>, f: map<Path, string>, d1: map<Path, Manifest>,
                            f1: map<Path, string>, d2: map<Path, Manifest>, f2: map<Path, string>, src: Path, dst: Path,
                            e: Entry, frames: nat) {
    && src != [] && dst != [] && EntryAt(d, src) == Some(e)
    && (e.kind.Dir? ==> Rewrite(Store(d, f), src, dst, frames) == (Store(d1, f1), Ok))
    && (e.kind.File? ==> d1 == d && f1 == f)
    && RenameEnd(Children(d, Parent(src)), d1, f1, d2, f2, src, dst, e)
  }

  /** Once the subtree is re-keyed, stopping leaves the source entry dangling. */
  lemma {:induction false} SrcLost(d: map<Path, Manifest>, f: map<Path, string>, d1: map<Path, Manifest>,
                                   f1: map<Path, string>, src: Path, dst: Path, frames: nat, r: Status)
    requires WellFormed(d, f) && src != [] && dst != [] && IsDir(d, src) && !Below(src, dst)
    requires Rewrite(Store(d, f), src, dst, frames) == (Store(d1, f1), r) && r != Crashed
    ensures src !in d1 && SameAt(d1, Parent(src), d, Parent(src)) && !WellFormed(d1, f1)
  {
    RewriteDrops(Store(d, f), src, dst, frames);
    RewriteFramed(Store(d, f), src, dst, frames);
    assert |Parent(src)| < |src| && Within(src, Parent(src));
    if Within(Parent(src), dst) { WithinTransitive(src, Parent(src), dst); }
    assert !NodeOk(d1, f1, src);
  }

  lemma {:induction false} SameTarget(d: map<Path, Manifest>, f: map<Path, string>, d1: map<Path, Manifest>,
                                      f1: map<Path, string>, src: Path, dst: Path, frames: nat)
    requires src != [] && dst != [] && !Below(dst, src)
    requires Rewrite(Store(d, f), src, dst, frames).0 == Store(d1, f1)
    ensures SameAt(d1, Parent(dst), d, Parent(dst)) && EntryAt(d1, dst) == EntryAt(d, dst)
  {
    RewriteFramed(Store(d, f), src, dst, frames);
    assert |Parent(dst)| < |dst| && Within(dst, Parent(dst));
    if Within(Parent(dst), src) { WithinTransitive(dst, Parent(dst), src); }
  }

  lemma {:induction false} DirReady(d: map<Path, Manifest>, f: map<Path, string>, src: Path, dst: Path)
    requires WellFormed(d, f) && src != [] && dst != [] && IsDir(d, src) && EntryAt(d, dst).None? && !Below(dst, src)
    ensures Incomparable(src, dst) && CanMove(d, f, src, dst) && Vacant(d, dst) && Vacant(f, dst)
  {
    assert NodeOk(d, f, src) && NodeOk(d, f, dst);
    WellFormedSubtree(d, f, src);
    if Below(src, dst) { AncestorsAreDirs(d, f, src, dst); }
    ClearBeside(d[src], src, dst);
    forall p: Path | Within(p, dst) ensures p !in d && p !in f {
      if p != dst { VacantBelow(d, f, dst, p); }
    }
  }

  lemma {:induction false} RenameKeeps(d: map<Path, Manifest>, f: map<Path, string>, d1: map<Path, Manifest>,
                                       f1: map<Path, string>, d2: map<Path, Manifest>, f2: map<Path, string>, src: Path,
                                       dst: Path, e: Entry, frames: nat)
    requires WellFormed(d, f) && RenameRan(d, f, d1, f1, d2, f2, src, dst, e, frames) && RenameSafe(d, src, dst)
    ensures RenameStatus(d, src, dst) == Ok && WellFormed(d2, f2)
    ensures Relocated(f, f2, src, dst) && MoveResolved(d, d2, src, dst)
  {
    var moved := e.(name := Base(dst));
    assert NodeOk(d, f, src) && NodeOk(d, f, dst);
    if e.kind.Dir? {
      DirReady(d, f, src, dst);
      RewriteMoves(Store(d, f), src, dst, frames);
      OverlaidVacant(d, d1, src, dst);
      OverlaidVacant(f, f1, src, dst);
      SrcLost(d, f, d1, f1, src, dst, frames, Ok);
      SameTarget(d, f, d1, f1, src, dst, frames);
    } else {
      NotBelowFile(d, f, src, dst);
      FileRelocated(d, f, f2, src, dst);
    }
    RenameManifests(d, d1, f1, d2, f2, src, dst, e);
    NodeRenamed(d, f, d1, f2, d2, src, dst, moved);
  }

  // ---- how a rename breaks the tree ----

  /** A file renamed to itself, or a directory over another directory that is not
      its parent: what is listed at the target is not stored. */
  lemma {:induction false} TargetLost(d: map<Path, Manifest>, f: map<Path, string>, d1: map<Path, Manifest>,
                                      f1: map<Path, string>, d2: map<Path, Manifest>, f2: map<Path, string>, src: Path,
                                      dst: Path, e: Entry, frames: nat)
    requires RenameRan(d, f, d1, f1, d2, f2, src, dst, e, frames) && !RenameSafe(d, src, dst) && !Below(dst, src) &&
             dst != Parent(src)
    ensures !WellFormed(d2, f2)
  {
    TargetEntry(d1, d2, f1, f2, d, src, dst, e);
    if e.kind.Dir? {
      SameTarget(d, f, d1, f1, src, dst, frames);
      assert |Parent(dst)| < |dst|;
    }
    assert !NodeOk(d2, f2, dst);
  }

  /** A directory renamed below itself: its old place keeps something stored. */
  lemma {:induction false} BelowBreaks(d: map<Path, Manifest>, f: map<Path, string>, d1: map<Path, Manifest>,
                                       f1: map<Path, string>, d2: map<Path, Manifest>, f2: map<Path, string>, src: Path,
                                       dst: Path, e: Entry, frames: nat)
    requires WellFormed(d, f) && RenameRan(d, f, d1, f1, d2, f2, src, dst, e, frames) && e.kind.Dir? && Below(dst, src)
    ensures !WellFormed(d2, f2)
  {
    var u := Parent(dst);
    assert |Parent(src)| < |src| <= |u| && Within(u, src) && u in d2;
    assert EntryAt(d2, src).None? by { FindWithout(Children(d, Parent(src)), Base(src), Base(src)); }
    if WellFormed(d2, f2) {
      assert NodeOk(d2, f2, src);
      if u != src { VacantBelow(d2, f2, src, u); }
    }
  }

  // ---- a directory renamed to its own parent ----

  /** What is at `p`, below the parent and outside `src`, agrees with what is at the
      same position below `src` and comes to lie over it. */
  predicate FitsAt(d: map<Path, Manifest>, src: Path, dst: Path, p: Path)
    requires Within(p, dst)
  {
    var x := Rebase(p, dst, src);
    if |p| == |dst| + 1 then
      EntryAt(d, x).Some? ==>
        p != src && EntryAt(d, p).Some? && SameNode(EntryAt(d, p).value, EntryAt(d, x).value, true)
    else
      Parent(x) in d && EntryAt(d, p).Some? ==>
          EntryAt(d, x).Some? && SameNode(EntryAt(d, p).value, EntryAt(d, x).value, false)
  }

  predicate SameNode(e: Entry, g: Entry, content: bool) {
    e.kind == g.kind && (content && e.kind.File? ==> e.hash == g.hash)
  }

  /** The directory `src` is renamed to its own parent, and all it holds is found
      there, too: an empty directory is the usual case. */
  ghost predicate OntoParent(d: map<Path, Manifest>, src: Path, dst: Path) {
    && src != [] && dst != [] && dst == Parent(src) && IsDir(d, src)
    && forall p: Path :: Below(p, dst) && !Below(p, src) ==> FitsAt(d, src, dst, p)
  }

  /** Renaming an empty directory to its parent is such a case. */
  lemma {:induction false} EmptyOntoParent(d: map<Path, Manifest>, f: map<Path, string>, src: Path)
    requires WellFormed(d, f) && src != [] && Parent(src) != [] && IsDir(d, src) && Children(d, src) == []
    ensures OntoParent(d, src, Parent(src))
  {
    var dst := Parent(src);
    assert NodeOk(d, f, src);
    WellFormedSubtree(d, f, src);
    forall p: Path | Below(p, dst) && !Below(p, src) ensures FitsAt(d, src, dst, p) {
      var x := Rebase(p, dst, src);
      assert Within(Parent(x), src) && (|p| == |dst| + 1 ==> Parent(x) == src);
      if Parent(x) != src && Parent(x) in d {
        NoOrphans(d, f, src, Parent(x));
      }
    }
  }

  /** The state such a rename leaves. */
  ghost predicate OverParent(d: map<Path, Manifest>, f: map<Path, string>, d1: map<Path, Manifest>,
                             f1: map<Path, string>, d2: map<Path, Manifest>, src: Path, dst: Path, moved: Entry) {
    && WellFormed(d, f) && src != [] && dst != [] && dst == Parent(src) && IsDir(d, src) && dst in d
    && Overlaid(d, d1, src, dst) && Overlaid(f, f1, src, dst)
    && moved.name == Base(dst) && moved.kind.Dir?
    && d2 == (d1 - {dst})[Parent(dst) := Without(Children(d, Parent(dst)), Base(dst)) + [moved]]
                         [dst := Without(d[dst], Base(src))]
  }

  lemma {:induction false} OverParentOutside(d: map<Path, Manifest>, f: map<Path, string>, d1: map<Path, Manifest>,
                                             f1: map<Path, string>, d2: map<Path, Manifest>, src: Path, dst: Path,
                                             moved: Entry, q: Path)
    requires OverParent(d, f, d1, f1, d2, src, dst, moved) && q != [] && (!Within(q, dst) || q == dst)
    ensures NodeOk(d2, f1, q)
  {
    var u := Parent(q);
    assert |Parent(dst)| < |dst| < |src| && Within(src, dst);
    assert NodeOk(d, f, src);
    OutsideKept(f, f1, src, dst, q);
    if u == Parent(dst) {
      assert u in d2 && u != dst;
    } else {
      assert Within(q, u);
      WithinTransitive(q, u, dst);
      OutsideKept(d, d1, src, dst, u);
    }
    if q != dst {
      OutsideKept(d, d1, src, dst, q);
    }
    SiblingsKept(d, f, d2, f1, dst, moved, q);
  }

  lemma {:induction false} SiblingsKept(d: map<Path, Manifest>, f: map<Path, string>, d2: map<Path, Manifest>,
                                        f1: map<Path, string>, dst: Path, moved: Entry, q: Path)
    requires WellFormed(d, f) && dst in d && dst in d2 && dst != [] && q != [] && moved.name == Base(dst) &&
             moved.kind.Dir?
    requires Parent(dst) in d2 && d2[Parent(dst)] == Without(Children(d, Parent(dst)), Base(dst)) + [moved]
    requires SameAt(f1, q, f, q) && (q != dst && q != Parent(dst) ==> SameAt(d2, q, d, q))
    requires Parent(q) != Parent(dst) ==> SameAt(d2, Parent(q), d, Parent(q))
    ensures NodeOk(d2, f1, q)
  {
    assert NodeOk(d, f, q) && NodeOk(d, f, dst);
    if Parent(q) == Parent(dst) {
      var m := Children(d, Parent(dst));
      FindWithout(m, Base(dst), Base(q));
      FindSnoc(Without(m, Base(dst)), moved, Base(q));
      SamePath(q, dst);
    }
  }

  /** What is not below the parent stays; so does what the parent has of a kind that
      the source has not. */
  lemma {:induction false} OutsideKept<V>(m0: map<Path, V>, m1: map<Path, V>, src: Path, dst: Path, q: Path)
    requires Overlaid(m0, m1, src, dst) && Below(src, dst) && (!Within(q, dst) || (q == dst && src !in m0))
    ensures SameAt(m1, q, m0, q)
  {
    assert OverAt(m0, m1, src, dst, q);
    if Within(q, src) { WithinTransitive(q, src, dst); }
    assert Rebase(dst, dst, src) == src;
  }

  lemma {:induction false} OverParentSource(d: map<Path, Manifest>, f: map<Path, string>, d1: map<Path, Manifest>,
                                            f1: map<Path, string>, d2: map<Path, Manifest>, src: Path, dst: Path,
                                            moved: Entry, q: Path)
    requires OverParent(d, f, d1, f1, d2, src, dst, moved) && Within(q, src)
    ensures NodeOk(d2, f1, q)
  {
    assert |Parent(dst)| < |dst| < |src| && Within(src, dst);
    assert OverAt(d, d1, src, dst, q) && OverAt(f, f1, src, dst, q);
    if q == src {
      FindWithout(d[dst], Base(src), Base(src));
    } else {
      assert Within(Parent(q), src) && OverAt(d, d1, src, dst, Parent(q));
    }
  }

  /** `m1` has at `p` what `m0` has at `x`, or else what it has at `p`. */
  ghost predicate LaidOver<V>(m0: map<Path, V>, m1: map<Path, V>, x: Path, p: Path) {
    if x in m0 then SameAt(m1, p, m0, x) else SameAt(m1, p, m0, p)
  }

  /** A child of the parent is listed as before. */
  lemma {:induction false} TopFits(d: map<Path, Manifest>, f: map<Path, string>, d2: map<Path, Manifest>,
                                   f1: map<Path, string>, x: Path, q: Path)
    requires NodeOk(d, f, q) && NodeOk(d, f, x) && EntryAt(d2, q) == EntryAt(d, q) && LaidOver(d, d2, x, q) &&
             LaidOver(f, f1, x, q)
    ensures NodeOk(d2, f1, q) <==>
      (EntryAt(d, x).Some? ==> EntryAt(d, q).Some? && SameNode(EntryAt(d, q).value, EntryAt(d, x).value, true))
  {}

  /** Further down it is listed as below the source, if that has a directory there. */
  lemma {:induction false} DeepFits(d: map<Path, Manifest>, f: map<Path, string>, d2: map<Path, Manifest>,
                                    f1: map<Path, string>, x: Path, q: Path)
    requires NodeOk(d, f, q) && NodeOk(d, f, x) && Parent(q) != [] && Parent(x) != [] && Base(q) == Base(x)
    requires LaidOver(d, d2, x, q) && LaidOver(f, f1, x, q) && LaidOver(d, d2, Parent(x), Parent(q))
    ensures NodeOk(d2, f1, q) <==>
      (Parent(x) in d && EntryAt(d, q).Some? ==>
          EntryAt(d, x).Some? && SameNode(EntryAt(d, q).value, EntryAt(d, x).value, false))
  {
    assert EntryAt(d2, q) == if Parent(x) in d then EntryAt(d, x) else EntryAt(d, q);
  }

  lemma {:induction false} LaidAt<V>(m0: map<Path, V>, m1: map<Path, V>, src: Path, dst: Path, p: Path)
    requires Overlaid(m0, m1, src, dst) && Within(p, dst) && !Within(p, src)
    ensures LaidOver(m0, m1, Rebase(p, dst, src), p)
  {
    assert OverAt(m0, m1, src, dst, p);
  }

  /** Below the parent and outside the source, the overlay is right exactly where
      the two fit. */
  lemma {:induction false} OverParentFits(d: map<Path, Manifest>, f: map<Path, string>, d1: map<Path, Manifest>,
                                          f1: map<Path, string>, d2: map<Path, Manifest>, src: Path, dst: Path,
                                          moved: Entry, q: Path)
    requires OverParent(d, f, d1, f1, d2, src, dst, moved) && Below(q, dst) && !Within(q, src)
    ensures NodeOk(d2, f1, q) <==> FitsAt(d, src, dst, q)
  {
    assert |Parent(q)| == |q| - 1 && Within(Parent(q), dst);
    OverParentLaid(d, f, d1, f1, d2, src, dst, moved, q);
    if Parent(q) == dst {
      FitsAtTop(d, f, d2, f1, src, dst, q);
    } else {
      assert Within(q, Parent(q));
      WithinTransitive(q, Parent(q), src);
      OverParentLaid(d, f, d1, f1, d2, src, dst, moved, Parent(q));
      FitsAtDepth(d, f, d2, f1, src, dst, q);
    }
  }

  /** `q` is laid over and was right before. */
  ghost predicate LaidNode(d: map<Path, Manifest>, f: map<Path, string>, d2: map<Path, Manifest>, f1: map<Path, string>,
                           src: Path, dst: Path, q: Path) {
    && Within(q, dst) && LaidOver(d, d2, Rebase(q, dst, src), q) && LaidOver(f, f1, Rebase(q, dst, src), q)
    && NodeOk(d, f, q) && NodeOk(d, f, Rebase(q, dst, src))
  }

  lemma {:induction false} FitsAtTop(d: map<Path, Manifest>, f: map<Path, string>, d2: map<Path, Manifest>,
                                     f1: map<Path, string>, src: Path, dst: Path, q: Path)
    requires LaidNode(d, f, d2, f1, src, dst, q) && src != [] && q != [] && src != q && Parent(src) == Parent(q) == dst
    requires dst in d && dst in d2 && d2[dst] == Without(d[dst], Base(src))
    ensures NodeOk(d2, f1, q) <==> FitsAt(d, src, dst, q)
  {
    OverParentTop(d, d2, src, dst, q);
    TopFits(d, f, d2, f1, Rebase(q, dst, src), q);
  }

  lemma {:induction false} FitsAtDepth(d: map<Path, Manifest>, f: map<Path, string>, d2: map<Path, Manifest>,
                                       f1: map<Path, string>, src: Path, dst: Path, q: Path)
    requires LaidNode(d, f, d2, f1, src, dst, q) && LaidNode(d, f, d2, f1, src, dst, Parent(q)) && src != [] &&
             Below(Parent(q), dst)
    ensures NodeOk(d2, f1, q) <==> FitsAt(d, src, dst, q)
  {
    var u := Parent(q);
    var xu := Rebase(u, dst, src);
    assert q == u + [Base(q)] && Rebase(q, dst, src) == xu + [Base(q)];
    ParentChild(xu, Base(q));
    DeepFits(d, f, d2, f1, Rebase(q, dst, src), q);
  }

  lemma {:induction false} OverParentLaid(d: map<Path, Manifest>, f: map<Path, string>, d1: map<Path, Manifest>,
                                          f1: map<Path, string>, d2: map<Path, Manifest>, src: Path, dst: Path,
                                          moved: Entry, q: Path)
    requires OverParent(d, f, d1, f1, d2, src, dst, moved) && Below(q, dst) && !Within(q, src)
    ensures LaidNode(d, f, d2, f1, src, dst, q)
  {
    assert |Parent(dst)| < |dst| < |q|;
    LaidAt(d, d1, src, dst, q);
    LaidAt(f, f1, src, dst, q);
    assert SameAt(d2, q, d1, q);
  }

  lemma {:induction false} OverParentTop(d: map<Path, Manifest>, d2: map<Path, Manifest>, src: Path, dst: Path, q: Path)
    requires dst in d && dst in d2 && d2[dst] == Without(d[dst], Base(src)) && src != [] && q != [] && src != q &&
             Parent(src) == Parent(q) == dst
    ensures EntryAt(d2, q) == EntryAt(d, q)
  {
    SamePath(src, q);
    FindWithout(d[dst], Base(src), Base(q));
  }

  lemma {:induction false} OverParentUnique(d: map<Path, Manifest>, f: map<Path, string>, d1: map<Path, Manifest>,
                                            f1: map<Path, string>, d2: map<Path, Manifest>, src: Path, dst: Path,
                                            moved: Entry)
    requires OverParent(d, f, d1, f1, d2, src, dst, moved)
    ensures [] !in f1 && forall q <- d2 :: UniqueNames(d2[q])
  {
    assert Within(src, dst) && |Parent(dst)| < |dst|;
    OutsideKept(f, f1, src, dst, []);
    UniqueWithout(d[dst], Base(src));
    UniqueSnoc(Children(d, Parent(dst)), moved);
    forall q <- d2 | q != dst && q != Parent(dst) ensures UniqueNames(d2[q]) {
      assert q in d1 && OverAt(d, d1, src, dst, q);
    }
  }

  lemma {:induction false} UniqueSnoc(m: Manifest, e: Entry)
    requires UniqueNames(m)
    ensures UniqueNames(Without(m, e.name) + [e])
  {
    UniqueWithout(m, e.name);
    var r := Without(m, e.name);
    assert forall k :: 0 <= k < |r| ==> r[k] in r;
  }

  lemma {:induction false} OverParentExact(d: map<Path, Manifest>, f: map<Path, string>, d1: map<Path, Manifest>,
                                           f1: map<Path, string>, d2: map<Path, Manifest>, src: Path, dst: Path,
                                           moved: Entry)
    requires OverParent(d, f, d1, f1, d2, src, dst, moved) && FitsAt(d, src, dst, src)
    ensures WellFormed(d2, f1) <==> OntoParent(d, src, dst)
  {
    assert Within(src, dst);
    OverParentUnique(d, f, d1, f1, d2, src, dst, moved);
    forall q: Path | q != []
      ensures NodeOk(d2, f1, q) <==> (Below(q, dst) && !Below(q, src) ==> FitsAt(d, src, dst, q))
    {
      if Within(q, src) {
        OverParentSource(d, f, d1, f1, d2, src, dst, moved, q);
      } else if Below(q, dst) {
        OverParentFits(d, f, d1, f1, d2, src, dst, moved, q);
      } else {
        OverParentOutside(d, f, d1, f1, d2, src, dst, moved, q);
      }
    }
  }

  /** A child of `src` with the name of `src` comes to lie at its place, unlisted. */
  lemma {:induction false} SameNameLost(d: map<Path, Manifest>, f: map<Path, string>, d1: map<Path, Manifest>,
                                        f1: map<Path, string>, d2: map<Path, Manifest>, src: Path, dst: Path,
                                        frames: nat)
    requires WellFormed(d, f) && src != [] && dst != [] && dst == Parent(src) && IsDir(d, src) && dst in d &&
             !FitsAt(d, src, dst, src)
    requires Rewrite(Store(d, f), src, dst, frames) == (Store(d1, f1), Ok)
    requires dst in d2 && d2[dst] == Without(d[dst], Base(src)) && (src in d1 ==> src in d2)
    ensures !WellFormed(d2, f1)
  {
    assert Within(src, dst) && |src| == |dst| + 1 && src == dst + [Base(src)];
    assert NodeOk(d, f, src);
    WellFormedClosed(d, f, src);
    RewriteClimbs(Store(d, f), src, dst, frames);
    var x := Rebase(src, dst, src);
    assert x == src + [Base(src)];
    ParentChild(src, Base(src));
    var e := FindEntry(d[src], Base(src)).value;
    assert e in d[src];
    FindWithout(d[dst], Base(src), Base(src));
    assert !NodeOk(d2, f1, src);
  }

  lemma {:induction false} ParentOutcome(d: map<Path, Manifest>, f: map<Path, string>, d1: map<Path, Manifest>,
                                         f1: map<Path, string>, d2: map<Path, Manifest>, f2: map<Path, string>,
                                         src: Path, dst: Path, e: Entry, frames: nat)
    requires WellFormed(d, f) && RenameRan(d, f, d1, f1, d2, f2, src, dst, e, frames) && e.kind.Dir? &&
             dst == Parent(src)
    ensures WellFormed(d2, f2) <==> OntoParent(d, src, dst)
  {
    ParentEnd(d, f, d1, f1, d2, f2, src, dst, e, frames);
    if FitsAt(d, src, dst, src) {
      ParentMoves(d, f, src, dst);
      RewriteMoves(Store(d, f), src, dst, frames);
      OverParentExact(d, f, d1, f1, d2, src, dst, e.(name := Base(dst)));
    } else {
      SameNameLost(d, f, d1, f1, d2, src, dst, frames);
    }
  }

  lemma {:induction false} ParentEnd(d: map<Path, Manifest>, f: map<Path, string>, d1: map<Path, Manifest>,
                                     f1: map<Path, string>, d2: map<Path, Manifest>, f2: map<Path, string>, src: Path,
                                     dst: Path, e: Entry, frames: nat)
    requires WellFormed(d, f) && RenameRan(d, f, d1, f1, d2, f2, src, dst, e, frames) && e.kind.Dir? &&
             dst == Parent(src)
    ensures Within(src, dst) && dst in d && f2 == f1
    ensures d2 == (d1 - {dst})[Parent(dst) := Without(Children(d, Parent(dst)), Base(dst)) + [e.(name := Base(dst))]]
                              [dst := Without(d[dst], Base(src))]
  {
    assert |Parent(dst)| < |dst| < |src|;
    SameTarget(d, f, d1, f1, src, dst, frames);
    AncestorsAreDirs(d, f, src, dst);
  }

  lemma {:induction false} ParentMoves(d: map<Path, Manifest>, f: map<Path, string>, src: Path, dst: Path)
    requires WellFormed(d, f) && src != [] && dst != [] && dst == Parent(src) && IsDir(d, src) &&
             FitsAt(d, src, dst, src)
    ensures CanMove(d, f, src, dst)
  {
    assert NodeOk(d, f, src);
    WellFormedSubtree(d, f, src);
    assert src == dst + [Base(src)] && |src| == |dst| + 1;
    assert Rebase(src, dst, src) == src + [Base(src)];
    ParentChild(src, Base(src));
    forall g <- d[src] ensures Incomparable(src, dst + [g.name]) {
      assert g.name != Base(src);
      Fork(dst, Base(src), g.name, src, dst + [g.name]);
    }
  }

  // ---- the outcome ----

  /** What Rename promises of a well-formed tree, unless a manifest grew too large:
      it does not come back if it is circular, and otherwise only if the stack is too
      small; the tree stays well formed exactly if the rename is safe or onto a parent
      that agrees; and a safe rename that fails changes nothing, one that succeeds
      moves the whole subtree and nothing else. */
  ghost predicate RenameOutcome(d: map<Path, Manifest>, f: map<Path, string>, d': map<Path, Manifest>,
                                f': map<Path, string>, src: Path, dst: Path, frames: nat, r: Status) {
    r != Err(EFBIG) ==>
      && (Circular(d, src, dst) ==> r == Crashed)
      && (r == Crashed ==> Circular(d, src, dst) || !Roomy(d, src, frames))
      && (r != Crashed ==> (WellFormed(d', f') <==> RenameSafe(d, src, dst) || OntoParent(d, src, dst)))
      && (r != Crashed && RenameSafe(d, src, dst) ==>
            && r == RenameStatus(d, src, dst)
            && (r.Err? ==> d' == d && f' == f)
            && (r == Ok ==> Relocated(f, f', src, dst) && MoveResolved(d, d', src, dst)))
  }

  lemma {:induction false} RenameCrashed(d: map<Path, Manifest>, f: map<Path, string>, d': map<Path, Manifest>,
                                         f': map<Path, string>, src: Path, dst: Path, frames: nat)
    requires WellFormed(d, f) && src != [] && dst != [] && IsDir(d, src)
    requires Rewrite(Store(d, f), src, dst, frames).1 == Crashed
    ensures RenameOutcome(d, f, d', f', src, dst, frames, Crashed)
  {
    if !Circular(d, src, dst) && Roomy(d, src, frames) {
      OthersEnd(d, f, src, dst, frames);
    }
  }

  lemma {:induction false} RenameFinished(d: map<Path, Manifest>, f: map<Path, string>, d1: map<Path, Manifest>,
                                          f1: map<Path, string>, d2: map<Path, Manifest>, f2: map<Path, string>,
                                          src: Path, dst: Path, e: Entry, frames: nat)
    requires WellFormed(d, f) && RenameRan(d, f, d1, f1, d2, f2, src, dst, e, frames)
    ensures RenameOutcome(d, f, d2, f2, src, dst, frames, Ok)
  {
    if Circular(d, src, dst) {
      CircularCrashes(d, f, src, dst, frames);
    }
    if RenameSafe(d, src, dst) {
      RenameKeeps(d, f, d1, f1, d2, f2, src, dst, e, frames);
    } else if e.kind.Dir? && dst == Parent(src) {
      ParentOutcome(d, f, d1, f1, d2, f2, src, dst, e, frames);
    } else if e.kind.Dir? && Below(dst, src) {
      BelowBreaks(d, f, d1, f1, d2, f2, src, dst, e, frames);
    } else {
      assert e.kind.File? ==> src == dst && |Parent(src)| < |src|;
      TargetLost(d, f, d1, f1, d2, f2, src, dst, e, frames);
    }
  }

  /** The target stops the rename after the subtree was re-keyed: it is of another
      kind, or its parent is not there. */
  predicate Stopped(d1: map<Path, Manifest>, dst: Path, kind: Kind) {
    if EntryAt(d1, dst).Some? then EntryAt(d1, dst).value.kind != kind else ReadManifest(d1, Parent(dst)).None?
  }

  lemma {:induction false} DirAbandoned(d: map<Path, Manifest>, f: map<Path, string>, d1: map<Path, Manifest>,
                                        f1: map<Path, string>, src: Path, dst: Path, frames: nat, r0: Status, r: Status)
    requires WellFormed(d, f) && src != [] && dst != [] && IsDir(d, src) && r.Err?
    requires Rewrite(Store(d, f), src, dst, frames) == (Store(d1, f1), r0) &&
             (r0 == r || (r0 == Ok && Stopped(d1, dst, Dir)))
    ensures RenameOutcome(d, f, d1, f1, src, dst, frames, r)
  {
    assert NodeOk(d, f, src);
    if Circular(d, src, dst) {
      CircularCrashes(d, f, src, dst, frames);
    }
    if Below(src, dst) {
      AncestorsAreDirs(d, f, src, dst);
      WellFormedClosed(d, f, src);
      RewriteClimbs(Store(d, f), src, dst, frames);
      SameTarget(d, f, d1, f1, src, dst, frames);
    } else {
      SrcLost(d, f, d1, f1, src, dst, frames, r0);
      assert dst == Parent(src) ==> Below(src, dst) by { assert Within(src, Parent(src)) && |Parent(src)| < |src|; }
      if RenameSafe(d, src, dst) {
        DirReady(d, f, src, dst);
        RewriteMoves(Store(d, f), src, dst, frames);
        SameTarget(d, f, d1, f1, src, dst, frames);
      }
    }
  }

  lemma {:induction false} FileAbandoned(d: map<Path, Manifest>, f: map<Path, string>, f1: map<Path, string>,
                                         src: Path, dst: Path, e: Entry, frames: nat, r: Status)
    requires WellFormed(d, f) && src != [] && dst != [] && EntryAt(d, src) == Some(e) && e.kind.File? &&
             Stopped(d, dst, File)
    requires if EntryAt(d, dst).Some? then r == Err(EINVAL) && f1 == f else r.Err? && f1 == f[dst := e.hash] - {src}
    ensures RenameOutcome(d, f, d, f1, src, dst, frames, r)
  {
    if EntryAt(d, dst).None? {
      assert !NodeOk(d, f1, src);
    }
  }
}
