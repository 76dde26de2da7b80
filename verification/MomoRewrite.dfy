module MomoRewrite {

  // The recursion of a directory rename in src/momofs/momofs.go: `rewriteSubtree` re-keys
  // a manifest and then, child by child, everything below it. Nothing in the program
  // keeps the two roots apart, so all their positions are modelled: beside each other,
  // equal, the new root above the old one, and the new root below it, where the
  // recursion can meet what it has just written. `frames` is the number of calls the
  // stack still holds.

  import opened MomoTree

  function Rewrite(s: Store, o: Path, w: Path, frames: nat): (r: (Store, Status))
    ensures r.1 == Ok || r.1 == Err(ENOENT) || r.1 == Crashed
    decreases frames, 0
  {
    if frames == 0 then (s, Crashed)
    else if o !in s.dirs then (s, Err(ENOENT))
    else RewriteChildren(RootMoved(s, o, w), s.dirs[o], 0, o, w, frames - 1)
  }

  function RootMoved(s: Store, o: Path, w: Path): Store
    requires o in s.dirs
  {
    s.(dirs := s.dirs[w := s.dirs[o]] - {o})
  }

  /** The loop over the manifest, from entry `i` on. */
  function RewriteChildren(s: Store, m: Manifest, i: nat, o: Path, w: Path, frames: nat): (r: (Store, Status))
    requires i <= |m|
    ensures r.1 == Ok || r.1 == Err(ENOENT) || r.1 == Crashed
    decreases frames, 2 + |m| - i
  {
    if i == |m| then (s, Ok)
    else
      var (s1, r) := RewriteChild(s, m[i], o, w, frames);
      if r != Ok then (s1, r) else RewriteChildren(s1, m, i + 1, o, w, frames)
  }

  function RewriteChild(s: Store, e: Entry, o: Path, w: Path, frames: nat): (r: (Store, Status))
    ensures r.1 == Ok || r.1 == Err(ENOENT) || r.1 == Crashed
    decreases frames, 1
  {
    if e.kind.Dir? then Rewrite(s, o + [e.name], w + [e.name], frames)
    else (s.(files := s.files[w + [e.name] := e.hash] - {o + [e.name]}), Ok)
  }

  // ---- what a rewrite can touch ----

  /** New or changed only within `w`, removed only within `o`. */
  ghost predicate Framed<V>(m0: map<Path, V>, m1: map<Path, V>, o: Path, w: Path) {
    && (forall p <- m1 :: Within(p, w) || (p in m0 && m1[p] == m0[p]))
    && (forall p <- m0 :: Within(p, o) || p in m1)
  }

  /** The same, strictly below the two. */
  ghost predicate FramedBelow<V>(m0: map<Path, V>, m1: map<Path, V>, o: Path, w: Path) {
    && (forall p <- m1 :: Below(p, w) || (p in m0 && m1[p] == m0[p]))
    && (forall p <- m0 :: Below(p, o) || p in m1)
  }

  lemma {:induction false} BelowChild(r: Path, n: string, p: Path)
    requires Within(p, r + [n])
    ensures Below(p, r)
  {
    ChildPrefix(r, n, p);
  }

  lemma {:induction false} FramedChild<V>(m0: map<Path, V>, m1: map<Path, V>, o: Path, w: Path, n: string)
    requires Framed(m0, m1, o + [n], w + [n])
    ensures FramedBelow(m0, m1, o, w)
  {
    forall p <- m1 ensures Below(p, w) || (p in m0 && m1[p] == m0[p]) {
      if Within(p, w + [n]) { BelowChild(w, n, p); }
    }
    forall p <- m0 ensures Below(p, o) || p in m1 {
      if Within(p, o + [n]) { BelowChild(o, n, p); }
    }
  }

  lemma {:induction false} FramedBoth<V>(m0: map<Path, V>, m1: map<Path, V>, m2: map<Path, V>, o: Path, w: Path)
    requires FramedBelow(m1, m2, o, w)
    ensures Framed(m0, m1, o, w) ==> Framed(m0, m2, o, w)
    ensures FramedBelow(m0, m1, o, w) ==> FramedBelow(m0, m2, o, w)
  {}

  lemma {:induction false} RewriteFramed(s: Store, o: Path, w: Path, frames: nat)
    ensures var s' := Rewrite(s, o, w, frames).0;
      Framed(s.dirs, s'.dirs, o, w) && FramedBelow(s.files, s'.files, o, w)
    decreases frames, 0
  {
    if frames > 0 && o in s.dirs {
      var s1 := RootMoved(s, o, w);
      ChildrenFramed(s1, s.dirs[o], 0, o, w, frames - 1);
      FramedBoth(s.dirs, s1.dirs, Rewrite(s, o, w, frames).0.dirs, o, w);
    }
  }

  lemma {:induction false} ChildrenFramed(s: Store, m: Manifest, i: nat, o: Path, w: Path, frames: nat)
    requires i <= |m|
    ensures var s' := RewriteChildren(s, m, i, o, w, frames).0;
      FramedBelow(s.dirs, s'.dirs, o, w) && FramedBelow(s.files, s'.files, o, w)
    decreases frames, 2 + |m| - i
  {
    if i < |m| {
      var (s1, r) := RewriteChild(s, m[i], o, w, frames);
      ChildFramed(s, m[i], o, w, frames);
      if r == Ok {
        ChildrenFramed(s1, m, i + 1, o, w, frames);
        var s' := RewriteChildren(s1, m, i + 1, o, w, frames).0;
        FramedBoth(s.dirs, s1.dirs, s'.dirs, o, w);
        FramedBoth(s.files, s1.files, s'.files, o, w);
      }
    }
  }

  /** What the step for one child can touch. */
  lemma {:induction false} ChildFramed(s: Store, e: Entry, o: Path, w: Path, frames: nat)
    ensures var s' := RewriteChild(s, e, o, w, frames).0;
      && Framed(s.dirs, s'.dirs, o + [e.name], w + [e.name]) && Framed(s.files, s'.files, o + [e.name], w + [e.name])
      && FramedBelow(s.dirs, s'.dirs, o, w) && FramedBelow(s.files, s'.files, o, w)
    decreases frames, 1
  {
    var s' := RewriteChild(s, e, o, w, frames).0;
    if e.kind.Dir? {
      RewriteFramed(s, o + [e.name], w + [e.name], frames);
    }
    FramedChild(s.dirs, s'.dirs, o, w, e.name);
    FramedChild(s.files, s'.files, o, w, e.name);
  }

  /** Unless the new root is above it, the old root loses its manifest. */
  lemma {:induction false} RewriteDrops(s: Store, o: Path, w: Path, frames: nat)
    requires !Below(o, w)
    ensures Rewrite(s, o, w, frames).1 != Crashed ==> o !in Rewrite(s, o, w, frames).0.dirs
  {
    if frames > 0 && o in s.dirs {
      ChildrenFramed(RootMoved(s, o, w), s.dirs[o], 0, o, w, frames - 1);
    }
  }

  // ---- the whole subtree arrives ----

  /** Whatever was stored at or below `o` is now at the same position below `w`, over
      what was there; nothing else differs. */
  ghost predicate Overlaid<V>(m0: map<Path, V>, m1: map<Path, V>, o: Path, w: Path) {
    forall p: Path :: OverAt(m0, m1, o, w, p)
  }

  ghost predicate OverAt<V>(m0: map<Path, V>, m1: map<Path, V>, o: Path, w: Path, p: Path) {
    if Within(p, o) then p !in m1
    else if Within(p, w) && Rebase(p, w, o) in m0 then SameAt(m1, p, m0, Rebase(p, w, o))
    else SameAt(m1, p, m0, p)
  }

  /** `s`, a position below the moved root, belongs to the part already moved:
      the root itself or the subtree of a child in `done`. */
  predicate Done(s: Path, done: set<string>) {
    s == [] || s[0] in done
  }

  /** Like `Overlaid`, for the part of the subtree described by `done`. */
  ghost predicate PartlyOverlaid<V>(m0: map<Path, V>, m1: map<Path, V>, o: Path, w: Path, done: set<string>) {
    forall p: Path :: OverlaidAt(m0, m1, o, w, done, p)
  }

  ghost predicate OverlaidAt<V>(m0: map<Path, V>, m1: map<Path, V>, o: Path, w: Path, done: set<string>, p: Path) {
    if Within(p, o) then
      if Done(p[|o|..], done) then p !in m1 else SameAt(m1, p, m0, p)
    else if Within(p, w) && Done(p[|w|..], done) && Rebase(p, w, o) in m0 then SameAt(m1, p, m0, Rebase(p, w, o))
    else SameAt(m1, p, m0, p)
  }

  /** The names of the old root's children lead to places outside the old root. */
  ghost predicate Clear(m: Manifest, o: Path, w: Path) {
    !Within(w, o) && forall e <- m :: Incomparable(o, w + [e.name])
  }

  /** The subtree at `o` is intact and has a place that does not overlap it. */
  ghost predicate CanMove(d: map<Path, Manifest>, f: map<Path, string>, o: Path, w: Path) {
    SubtreeOk(d, f, o) && Clear(d[o], o, w)
  }

  lemma {:induction false} PartlyThenChild<V>(m0: map<Path, V>, m1: map<Path, V>, m2: map<Path, V>, o: Path, w: Path,
                                              done: set<string>, n: string)
    requires Incomparable(o, w + [n]) && PartlyOverlaid(m0, m1, o, w, done) && n !in done &&
             Overlaid(m1, m2, o + [n], w + [n])
    ensures PartlyOverlaid(m0, m2, o, w, done + {n})
  {
    forall p: Path ensures OverlaidAt(m0, m2, o, w, done + {n}, p) {
      assert OverlaidAt(m0, m1, o, w, done, p) && OverAt(m1, m2, o + [n], w + [n], p);
      ChildPrefix(o, n, p);
      ChildPrefix(w, n, p);
      if Within(p, w + [n]) {
        var q := Rebase(p, w, o);
        assert q == Rebase(p, w + [n], o + [n]);
        assert Within(q, o) && q[|o|..] == p[|w|..];
        assert OverlaidAt(m0, m1, o, w, done, q);
        if Within(p, o) { BothWithin(p, o, w + [n]); }
      }
    }
  }

  lemma {:induction false} PartlyAll<V>(d: map<Path, Manifest>, f: map<Path, string>, m0: map<Path, V>,
                                        m1: map<Path, V>, o: Path, w: Path)
    requires SubtreeOk(d, f, o) && (m0.Keys == d.Keys || m0.Keys == f.Keys)
    requires PartlyOverlaid(m0, m1, o, w, Names(d[o]))
    ensures Overlaid(m0, m1, o, w)
  {
    var done := Names(d[o]);
    forall p: Path ensures OverAt(m0, m1, o, w, p) {
      assert OverlaidAt(m0, m1, o, w, done, p);
      if Within(p, o) {
        if !Done(p[|o|..], done) && p in m0 {
          NoOrphans(d, f, o, p);
        }
      } else if Within(p, w) {
        var q := Rebase(p, w, o);
        if !Done(p[|w|..], done) && q in m0 {
          assert q[|o|] == p[|w|..][0];
          NoOrphans(d, f, o, q);
        }
      }
    }
  }

  /** While a rewrite is under way, the subtree of a child not yet moved is intact. */
  lemma {:induction false} ChildIntact(d0: map<Path, Manifest>, f0: map<Path, string>, d1: map<Path, Manifest>,
                                       f1: map<Path, string>, o: Path, w: Path, done: set<string>, n: string)
    requires SubtreeOk(d0, f0, o) && n !in done
    requires PartlyOverlaid(d0, d1, o, w, done) && PartlyOverlaid(f0, f1, o, w, done)
    ensures forall p: Path :: Within(p, o + [n]) ==> SameAt(d1, p, d0, p) && SameAt(f1, p, f0, p)
    ensures o + [n] in d0 && o + [n] !in f0 ==> SubtreeOk(d1, f1, o + [n])
  {
    forall p: Path | Within(p, o + [n]) ensures SameAt(d1, p, d0, p) && SameAt(f1, p, f0, p) {
      ChildPrefix(o, n, p);
      assert OverlaidAt(d0, d1, o, w, done, p) && OverlaidAt(f0, f1, o, w, done, p);
    }
    assert SameAt(d1, o + [n], d0, o + [n]) && SameAt(f1, o + [n], f0, o + [n]);
    forall p: Path | Below(p, o + [n]) ensures NodeOk(d1, f1, p) {
      ChildPrefix(o, n, p);
      assert Below(p, o) && NodeOk(d0, f0, p);
      assert Within(Parent(p), o + [n]);
      assert SameAt(d1, Parent(p), d0, Parent(p));
    }
    forall p <- d1 | Within(p, o + [n]) ensures UniqueNames(d1[p]) {
      ChildPrefix(o, n, p);
      assert SameAt(d1, p, d0, p);
    }
  }

  /** Re-keying one file moves its one-node subtree. */
  lemma {:induction false} FileChildMoved(d: map<Path, Manifest>, f: map<Path, string>, f': map<Path, string>, o: Path,
                                          w: Path)
    requires Incomparable(o, w) && o in f && f' == f[w := f[o]] - {o}
    requires forall p: Path :: Within(p, o) ==> p !in d && (p in f ==> p == o)
    ensures Overlaid(d, d, o, w) && Overlaid(f, f', o, w)
  {
    forall p: Path ensures OverAt(d, d, o, w, p) && OverAt(f, f', o, w, p) {
      if Within(p, w) {
        assert Within(Rebase(p, w, o), o) && (Rebase(p, w, o) == o ==> |p| == |w|);
        assert |p| == |w| ==> p == w;
      }
    }
  }

  ghost predicate MidMove(s0: Store, s: Store, o: Path, w: Path, done: set<string>) {
    PartlyOverlaid(s0.dirs, s.dirs, o, w, done) && PartlyOverlaid(s0.files, s.files, o, w, done)
  }

  lemma {:induction false} RootMoves(s: Store, o: Path, w: Path)
    requires CanMove(s.dirs, s.files, o, w)
    ensures MidMove(s, RootMoved(s, o, w), o, w, Names([]))
  {
    var s1 := RootMoved(s, o, w);
    assert Rebase(w, w, o) == o;
    forall p: Path
      ensures OverlaidAt(s.dirs, s1.dirs, o, w, {}, p) && OverlaidAt(s.files, s1.files, o, w, {}, p)
    {
      if Within(p, w) && |p| == |w| { assert p == w; }
      if Within(p, o) && |p| == |o| { assert p == o; }
    }
    assert Names([]) == {};
  }

  /** The facts a step of the loop starts from. */
  lemma {:induction false} ChildReady(s0: Store, s: Store, o: Path, w: Path, m: Manifest, i: nat)
    requires CanMove(s0.dirs, s0.files, o, w) && s0.dirs[o] == m && i < |m| && MidMove(s0, s, o, w, Names(m[..i]))
    ensures m[i].name !in Names(m[..i]) && Incomparable(o, w + [m[i].name])
    ensures Incomparable(o + [m[i].name], w + [m[i].name])
    ensures m[i].kind.Dir? ==> CanMove(s.dirs, s.files, o + [m[i].name], w + [m[i].name])
    ensures m[i].kind.File? ==>
              var p, q := o + [m[i].name], w + [m[i].name];
              Overlaid(s.dirs, s.dirs, p, q) && Overlaid(s.files, s.files[q := m[i].hash] - {p}, p, q)
  {
    var n := m[i].name;
    var p, q := o + [n], w + [n];
    assert m[i] in m;
    assert Within(p, o);
    WithinTransitive(p, o, q);
    if Within(q, p) { WithinTransitive(q, p, o); }
    if Within(p, q) { BothWithin(p, o, q); }
    ChildIntact(s0.dirs, s0.files, s.dirs, s.files, o, w, Names(m[..i]), n);
    FindUnique(m, i);
    assert Parent(p) == o && Base(p) == n;
    assert NodeOk(s0.dirs, s0.files, p);
    assert SameAt(s.dirs, p, s0.dirs, p) && SameAt(s.files, p, s0.files, p);
    if m[i].kind.File? {
      forall x: Path | Within(x, p) ensures x !in s.dirs && (x in s.files ==> x == p) {
        ChildPrefix(o, n, x);
        if x != p {
          NothingBelowFile(s0.dirs, s0.files, o, p, x);
        }
      }
      FileChildMoved(s.dirs, s.files, s.files[q := s.files[p]] - {p}, p, q);
    } else {
      ClearBeside(s.dirs[p], p, q);
    }
  }

  lemma {:induction false} ClearBeside(m: Manifest, o: Path, w: Path)
    requires Incomparable(o, w)
    ensures Clear(m, o, w)
  {
    forall e <- m ensures Incomparable(o, w + [e.name]) {
      ChildPrefix(w, e.name, o);
      if Within(w + [e.name], o) { BothWithin(w + [e.name], o, w); }
    }
  }

  lemma {:induction false} MidMoveNext(s0: Store, s: Store, s1: Store, o: Path, w: Path, m: Manifest, i: nat)
    requires i < |m| && m[i].name !in Names(m[..i]) && Incomparable(o, w + [m[i].name]) &&
             MidMove(s0, s, o, w, Names(m[..i]))
    requires Overlaid(s.dirs, s1.dirs, o + [m[i].name], w + [m[i].name])
    requires Overlaid(s.files, s1.files, o + [m[i].name], w + [m[i].name])
    ensures MidMove(s0, s1, o, w, Names(m[..i + 1]))
  {
    PartlyThenChild(s0.dirs, s.dirs, s1.dirs, o, w, Names(m[..i]), m[i].name);
    PartlyThenChild(s0.files, s.files, s1.files, o, w, Names(m[..i]), m[i].name);
    assert m[..i + 1] == m[..i] + [m[i]];
    assert Names(m[..i + 1]) == Names(m[..i]) + {m[i].name};
  }

  /** A subtree with a place of its own is moved as a whole. */
  lemma {:induction false} RewriteMoves(s: Store, o: Path, w: Path, frames: nat)
    requires CanMove(s.dirs, s.files, o, w)
    ensures var (s', r) := Rewrite(s, o, w, frames);
      r == Crashed || (r == Ok && Overlaid(s.dirs, s'.dirs, o, w) && Overlaid(s.files, s'.files, o, w))
    decreases frames, 0
  {
    if frames > 0 {
      var m := s.dirs[o];
      RootMoves(s, o, w);
      assert m[..0] == [];
      ChildrenMove(s, RootMoved(s, o, w), m, 0, o, w, frames - 1);
      var (s', r) := Rewrite(s, o, w, frames);
      if r == Ok {
        PartlyAll(s.dirs, s.files, s.dirs, s'.dirs, o, w);
        PartlyAll(s.dirs, s.files, s.files, s'.files, o, w);
      }
    }
  }

  lemma {:induction false} ChildrenMove(s0: Store, s: Store, m: Manifest, i: nat, o: Path, w: Path, frames: nat)
    requires CanMove(s0.dirs, s0.files, o, w) && s0.dirs[o] == m && i <= |m| && MidMove(s0, s, o, w, Names(m[..i]))
    ensures var (s', r) := RewriteChildren(s, m, i, o, w, frames);
      r == Crashed || (r == Ok && MidMove(s0, s', o, w, Names(m)))
    decreases frames, 2 + |m| - i
  {
    if i == |m| {
      assert m[..i] == m;
    } else {
      ChildReady(s0, s, o, w, m, i);
      var (s1, r) := RewriteChild(s, m[i], o, w, frames);
      if m[i].kind.Dir? {
        RewriteMoves(s, o + [m[i].name], w + [m[i].name], frames);
      }
      if r == Ok {
        MidMoveNext(s0, s, s1, o, w, m, i);
        ChildrenMove(s0, s1, m, i + 1, o, w, frames);
      }
    }
  }

  // ---- when the recursion ends ----

  /** A manifest of the parent lists `p` as a directory. */
  predicate ListsDir(d: map<Path, Manifest>, p: Path) {
    Parent(p) in d && exists e <- d[Parent(p)] :: e.name == Base(p) && e.kind.Dir?
  }

  /** Manifests that can be read below `o`, those within `lim` aside, are less than
      `height` deep. */
  ghost predicate Shallow(d: map<Path, Manifest>, o: Path, lim: Option<Path>, height: nat) {
    forall p <- d :: Within(p, o) && (lim.Some? ==> !Within(p, lim.value)) ==> |p| + 1 < height
  }

  /** The walk from `o` does not run into what it writes: the new root is not below
      the old one, or it lies within a place that is not walked. */
  ghost predicate Apart(d: map<Path, Manifest>, o: Path, w: Path, lim: Option<Path>) {
    match lim
    case None => !Below(w, o)
    case Some(l) => l != [] && Within(w, l) && !Within(o, l) && !ListsDir(d, l)
  }

  /** Moved up or sideways at the same depth, paths do not get longer. */
  lemma {:induction false} RewriteShort(s: Store, o: Path, w: Path, frames: nat, height: nat)
    requires |w| <= |o| && Shallow(s.dirs, o, None, height)
    ensures forall p <- Rewrite(s, o, w, frames).0.dirs :: p in s.dirs || |p| + 1 < height
    decreases frames, 0
  {
    if frames > 0 && o in s.dirs {
      var s1 := RootMoved(s, o, w);
      assert Within(o, o) && |w| + 1 < height;
      ChildrenShort(s1, s.dirs[o], 0, o, w, frames - 1, height);
    }
  }

  lemma {:induction false} ChildrenShort(s: Store, m: Manifest, i: nat, o: Path, w: Path, frames: nat, height: nat)
    requires i <= |m| && |w| <= |o| && Shallow(s.dirs, o, None, height)
    ensures forall p <- RewriteChildren(s, m, i, o, w, frames).0.dirs :: p in s.dirs || |p| + 1 < height
    decreases frames, 2 + |m| - i
  {
    if i < |m| {
      var n := m[i].name;
      var (s1, r) := RewriteChild(s, m[i], o, w, frames);
      if m[i].kind.Dir? {
        forall p <- s.dirs | Within(p, o + [n]) ensures |p| + 1 < height {
          BelowChild(o, n, p);
        }
        RewriteShort(s, o + [n], w + [n], frames, height);
      }
      if r == Ok {
        ChildrenShort(s1, m, i + 1, o, w, frames, height);
      }
    }
  }

  /** The step for a child keeps the rest of the walk within its height. */
  lemma {:induction false} StillShallow(s: Store, e: Entry, o: Path, w: Path, frames: nat, lim: Option<Path>,
                                        height: nat)
    requires Shallow(s.dirs, o, lim, height) && Apart(s.dirs, o, w, lim)
    ensures var s' := RewriteChild(s, e, o, w, frames).0;
      Shallow(s'.dirs, o, lim, height) && Apart(s'.dirs, o, w, lim)
  {
    var s' := RewriteChild(s, e, o, w, frames).0;
    var n := e.name;
    ChildFramed(s, e, o, w, frames);
    forall p <- s'.dirs | Within(p, o) && (lim.Some? ==> !Within(p, lim.value)) ensures |p| + 1 < height {
      if p !in s.dirs {
        assert Within(p, w);
        if lim.Some? {
          WithinTransitive(p, w, lim.value);
        } else {
          BothWithin(p, o, w);
          assert |w| <= |o|;
          forall q <- s.dirs | Within(q, o + [n]) ensures |q| + 1 < height {
            BelowChild(o, n, q);
          }
          RewriteShort(s, o + [n], w + [n], frames, height);
        }
      }
    }
    if lim.Some? {
      var l := lim.value;
      if Parent(l) in s'.dirs {
        if Within(Parent(l), w) { WithinTransitive(Parent(l), w, l); }
      }
    }
  }

  lemma {:induction false} ParentOrSelf(p: Path, n: string, l: Path)
    requires Within(p + [n], l)
    ensures Within(p, l) || l == p + [n]
  {
    assert |l| <= |p| ==> l == (p + [n])[..|l|] == p[..|l|];
  }

  lemma {:induction false} ChildApart(d: map<Path, Manifest>, m: Manifest, e: Entry, o: Path, w: Path,
                                      lim: Option<Path>)
    requires Apart(d, o, w, lim) && e in m && e.kind.Dir?
    requires lim.Some? && Parent(lim.value) == o ==> forall x <- m :: x.name == Base(lim.value) ==> x.kind.File?
    ensures Apart(d, o + [e.name], w + [e.name], lim)
  {
    var n := e.name;
    match lim
    case None =>
      if Below(w + [n], o + [n]) {
        ChildPrefix(o, n, w + [n]);
        assert w == (w + [n])[..|w|];
      }
    case Some(l) =>
      assert Within(w + [n], w);
      WithinTransitive(w + [n], w, l);
      if Within(o + [n], l) {
        ParentOrSelf(o, n, l);
        ParentChild(o, n);
      }
  }

  /** With enough stack the recursion ends, unless it runs into its own writes. */
  lemma {:induction false} RewriteEnds(s: Store, o: Path, w: Path, frames: nat, lim: Option<Path>)
    requires frames > 0 && Apart(s.dirs, o, w, lim) && Shallow(s.dirs, o, lim, |o| + frames)
    ensures Rewrite(s, o, w, frames).1 != Crashed
    decreases frames, 0
  {
    if o in s.dirs {
      var s1, m := RootMoved(s, o, w), s.dirs[o];
      assert Within(o, o) && |o| + 1 < |o| + frames;
      RootApart(s, o, w, frames, lim);
      ChildrenEnd(s1, m, 0, o, w, frames - 1, lim);
    }
  }

  lemma {:induction false} RootApart(s: Store, o: Path, w: Path, frames: nat, lim: Option<Path>)
    requires o in s.dirs && Apart(s.dirs, o, w, lim) && Shallow(s.dirs, o, lim, |o| + frames)
    ensures var s1, m := RootMoved(s, o, w), s.dirs[o];
      && Apart(s1.dirs, o, w, lim) && Shallow(s1.dirs, o, lim, |o| + frames)
      && (lim.Some? && Parent(lim.value) == o ==> forall x <- m :: x.name == Base(lim.value) ==> x.kind.File?)
  {
    var s1 := RootMoved(s, o, w);
    assert Within(o, o);
    forall p <- s1.dirs | Within(p, o) && (lim.Some? ==> !Within(p, lim.value)) ensures |p| + 1 < |o| + frames {
      assert p == w || p in s.dirs;
    }
    if lim.Some? {
      var l := lim.value;
      assert |Parent(l)| < |l|;
    }
  }

  lemma {:induction false} ChildrenEnd(s: Store, m: Manifest, i: nat, o: Path, w: Path, frames: nat, lim: Option<Path>)
    requires frames > 0 && i <= |m| && Apart(s.dirs, o, w, lim) && Shallow(s.dirs, o, lim, |o| + 1 + frames)
    requires lim.Some? && Parent(lim.value) == o ==> forall x <- m :: x.name == Base(lim.value) ==> x.kind.File?
    ensures RewriteChildren(s, m, i, o, w, frames).1 != Crashed
    decreases frames, 2 + |m| - i
  {
    if i < |m| {
      var n := m[i].name;
      var (s1, r) := RewriteChild(s, m[i], o, w, frames);
      if m[i].kind.Dir? {
        ChildApart(s.dirs, m, m[i], o, w, lim);
        forall p <- s.dirs | Within(p, o + [n]) && (lim.Some? ==> !Within(p, lim.value))
          ensures |p| + 1 < |o + [n]| + frames
        {
          BelowChild(o, n, p);
        }
        RewriteEnds(s, o + [n], w + [n], frames, lim);
      }
      if r == Ok {
        StillShallow(s, m[i], o, w, frames, lim, |o| + 1 + frames);
        ChildrenEnd(s1, m, i + 1, o, w, frames, lim);
      }
    }
  }

  // ---- up and sideways nothing is missing ----

  /** The manifest at `q` has unique names, and its directories are stored. */
  ghost predicate ClosedAt(d: map<Path, Manifest>, q: Path)
    requires q in d
  {
    UniqueNames(d[q]) && forall e {:trigger e in d[q]} :: e in d[q] && e.kind.Dir? ==> q + [e.name] in d
  }

  ghost predicate ClosedIn(d: map<Path, Manifest>, r: Path) {
    forall q {:trigger ClosedAt(d, q)} :: q in d && Within(q, r) ==> ClosedAt(d, q)
  }

  /** The new root is beside the old one or above it. */
  predicate Climbs(o: Path, w: Path) {
    Incomparable(o, w) || Below(o, w)
  }

  /** Manifests below `w` and outside `o` are as in `d0` or closed. */
  ghost predicate TidyBelow(d0: map<Path, Manifest>, d: map<Path, Manifest>, o: Path, w: Path) {
    forall q <- d :: Below(q, w) && !Within(q, o) ==> (q in d0 && d[q] == d0[q]) || ClosedAt(d, q)
  }

  /** What a finished rewrite of the manifest `m` leaves. */
  ghost predicate Settled(d0: map<Path, Manifest>, s: Store, m: Manifest, o: Path, w: Path) {
    && TidyBelow(d0, s.dirs, o, w) && w in s.dirs && s.dirs[w] == m && ClosedAt(s.dirs, w)
    && forall e <- m :: e.kind.File? ==> w + [e.name] in s.files
  }

  /** The loop at entry `i`: earlier entries have arrived, later ones can be read. */
  ghost predicate Climbing(d0: map<Path, Manifest>, s: Store, m: Manifest, i: nat, o: Path, w: Path)
    requires i <= |m|
  {
    && UniqueNames(m) && w in s.dirs && s.dirs[w] == m && TidyBelow(d0, s.dirs, o, w)
    && (forall j :: 0 <= j < i ==> Arrived(s, m[j], w))
    && (forall j :: i <= j < |m| ==> Awaits(s.dirs, m[j], o))
  }

  predicate Arrived(s: Store, e: Entry, w: Path) {
    if e.kind.Dir? then w + [e.name] in s.dirs else w + [e.name] in s.files
  }

  ghost predicate Awaits(d: map<Path, Manifest>, e: Entry, o: Path) {
    e.kind.Dir? ==> o + [e.name] in d && ClosedIn(d, o + [e.name])
  }

  /** No child's new place lies within another child's old one. */
  lemma {:induction false} NotWithinOld(o: Path, w: Path, x: string, n: string)
    requires Climbs(o, w)
    ensures !Within(w + [x], o + [n]) && !Within(w, o + [n])
  {
    ChildPrefix(o, n, w + [x]);
    ChildPrefix(o, n, w);
    if Within(w + [x], o) { ParentOrSelf(w, x, o); }
  }

  lemma {:induction false} ArrivedStays(s: Store, s1: Store, e: Entry, o: Path, w: Path, n: string)
    requires Climbs(o, w) && Arrived(s, e, w)
    requires Framed(s.dirs, s1.dirs, o + [n], w + [n]) && Framed(s.files, s1.files, o + [n], w + [n])
    ensures Arrived(s1, e, w)
  {
    NotWithinOld(o, w, e.name, n);
  }

  lemma {:induction false} AwaitsStays(d: map<Path, Manifest>, d1: map<Path, Manifest>, e: Entry, o: Path, w: Path,
                                       n: string)
    requires e.name != n && Awaits(d, e, o) && Framed(d, d1, o + [n], w + [n])
    requires TidyBelow(d, d1, o + [n], w + [n]) &&
             (w + [n] in d1 ==> ClosedAt(d1, w + [n]) || (w + [n] in d && d1[w + [n]] == d[w + [n]]))
    ensures Awaits(d1, e, o)
  {
    var r := o + [e.name];
    ChildPrefix(o, n, r);
    forall q <- d1 | e.kind.Dir? && Within(q, r) ensures ClosedAt(d1, q) {
      ChildPrefix(o, e.name, q);
      ChildPrefix(o, n, q);
      if q in d && d1[q] == d[q] {
        StaysClosed(d, d1, q, o + [n], w + [n]);
      }
    }
  }

  lemma {:induction false} StaysClosed(d: map<Path, Manifest>, d1: map<Path, Manifest>, q: Path, o: Path, w: Path)
    requires q in d && q in d1 && d1[q] == d[q] && ClosedAt(d, q) && Framed(d, d1, o, w) && !Within(q, o) &&
             q != Parent(o) && o != []
    ensures ClosedAt(d1, q)
  {
    forall e <- d1[q] | e.kind.Dir? ensures q + [e.name] in d1 {
      if Within(q + [e.name], o) {
        ParentOrSelf(q, e.name, o);
        ParentChild(q, e.name);
      }
    }
  }

  lemma {:induction false} TidyStays(d0: map<Path, Manifest>, d: map<Path, Manifest>, d1: map<Path, Manifest>, o: Path,
                                     w: Path, n: string)
    requires TidyBelow(d0, d, o, w) && Framed(d, d1, o + [n], w + [n])
    requires TidyBelow(d, d1, o + [n], w + [n]) &&
             (w + [n] in d1 ==> ClosedAt(d1, w + [n]) || (w + [n] in d && d1[w + [n]] == d[w + [n]]))
    ensures TidyBelow(d0, d1, o, w)
  {
    forall q <- d1 | Below(q, w) && !Within(q, o) ensures (q in d0 && d1[q] == d0[q]) || ClosedAt(d1, q) {
      ChildPrefix(o, n, q);
      ParentChild(o, n);
      if q in d && d1[q] == d[q] && ClosedAt(d, q) {
        StaysClosed(d, d1, q, o + [n], w + [n]);
      }
    }
  }

  lemma {:induction false} ClimbNext(d0: map<Path, Manifest>, s: Store, s1: Store, m: Manifest, i: nat, o: Path,
                                     w: Path)
    requires Climbs(o, w) && i < |m| && Climbing(d0, s, m, i, o, w) && Arrived(s1, m[i], w)
    requires Framed(s.dirs, s1.dirs, o + [m[i].name], w + [m[i].name]) &&
             Framed(s.files, s1.files, o + [m[i].name], w + [m[i].name])
    requires TidyBelow(s.dirs, s1.dirs, o + [m[i].name], w + [m[i].name])
    requires m[i].kind.Dir? ==> ClosedAt(s1.dirs, w + [m[i].name])
    requires m[i].kind.File? ==> s1.dirs == s.dirs
    ensures Climbing(d0, s1, m, i + 1, o, w)
  {
    var n := m[i].name;
    NotWithinOld(o, w, n, n);
    assert w in s1.dirs && s1.dirs[w] == m by { ChildPrefix(w, n, w); }
    TidyStays(d0, s.dirs, s1.dirs, o, w, n);
    forall j | 0 <= j < i ensures Arrived(s1, m[j], w) {
      ArrivedStays(s, s1, m[j], o, w, n);
    }
    forall j | i + 1 <= j < |m| ensures Awaits(s1.dirs, m[j], o) {
      AwaitsStays(s.dirs, s1.dirs, m[j], o, w, n);
    }
  }

  /** From a closed subtree, beside or above, the rewrite finds everything it reads. */
  lemma {:induction false} RewriteClimbs(s: Store, o: Path, w: Path, frames: nat)
    requires Climbs(o, w) && o in s.dirs && ClosedIn(s.dirs, o)
    ensures var (s', r) := Rewrite(s, o, w, frames);
      r == Crashed || (r == Ok && Settled(s.dirs, s', s.dirs[o], o, w))
    decreases frames, 0
  {
    if frames > 0 {
      var s1, m := RootMoved(s, o, w), s.dirs[o];
      ClimbStarts(s, o, w);
      ChildrenClimb(s.dirs, s1, m, 0, o, w, frames - 1);
    }
  }

  lemma {:induction false} ClimbStarts(s: Store, o: Path, w: Path)
    requires Climbs(o, w) && o in s.dirs && ClosedIn(s.dirs, o)
    ensures Climbing(s.dirs, RootMoved(s, o, w), s.dirs[o], 0, o, w)
  {
    var s1, m := RootMoved(s, o, w), s.dirs[o];
    assert Within(o, o) && ClosedAt(s.dirs, o);
    forall j | 0 <= j < |m| ensures Awaits(s1.dirs, m[j], o) {
      var r := o + [m[j].name];
      assert m[j] in m;
      forall q <- s1.dirs | m[j].kind.Dir? && Within(q, r) ensures ClosedAt(s1.dirs, q) {
        BelowChild(o, m[j].name, q);
        NotWithinOld(o, w, m[j].name, m[j].name);
        assert ClosedAt(s.dirs, q);
      }
    }
  }

  lemma {:induction false} ChildrenClimb(d0: map<Path, Manifest>, s: Store, m: Manifest, i: nat, o: Path, w: Path,
                                         frames: nat)
    requires Climbs(o, w) && i <= |m| && Climbing(d0, s, m, i, o, w)
    ensures var (s', r) := RewriteChildren(s, m, i, o, w, frames);
      r == Crashed || (r == Ok && Settled(d0, s', m, o, w))
    decreases frames, 2 + |m| - i
  {
    if i == |m| {
      forall e <- m ensures Arrived(s, e, w) {
        var j :| 0 <= j < |m| && m[j] == e;
      }
    } else {
      var n := m[i].name;
      var (s1, r) := RewriteChild(s, m[i], o, w, frames);
      ChildFramed(s, m[i], o, w, frames);
      assert Awaits(s.dirs, m[i], o);
      if m[i].kind.Dir? {
        ClimbsChild(o, w, n);
        RewriteClimbs(s, o + [n], w + [n], frames);
      }
      if r == Ok {
        NotWithinOld(o, w, n, n);
        ClimbNext(d0, s, s1, m, i, o, w);
        ChildrenClimb(d0, s1, m, i + 1, o, w, frames);
      }
    }
  }

  lemma {:induction false} ClimbsChild(o: Path, w: Path, n: string)
    requires Climbs(o, w)
    ensures Climbs(o + [n], w + [n])
  {
    NotWithinOld(o, w, n, n);
    if Within(o + [n], w + [n]) {
      assert o + [n] != w + [n] by { assert (o + [n])[..|o|] == o && (w + [n])[..|w|] == w; }
    }
  }

  // ---- when it never ends ----

  /** The manifest at `q` lists the directory `n`, and what it lists before can be moved. */
  ghost predicate Link(d: map<Path, Manifest>, q: Path, n: string) {
    q in d && UniqueNames(d[q]) && exists j :: 0 <= j < |d[q]| && LinkAt(d, q, n, j)
  }

  ghost predicate LinkAt(d: map<Path, Manifest>, q: Path, n: string, j: int)
    requires q in d && 0 <= j < |d[q]|
  {
    d[q][j].name == n && d[q][j].kind.Dir? && forall k :: 0 <= k < j ==> Awaits(d, d[q][k], q)
  }

  ghost predicate LinkTo(d: map<Path, Manifest>, o: Path, t: Path, k: nat)
    requires k < |t|
  {
    Link(d, o + t[..k], t[k])
  }

  /** Directories lead from `o` down to `o + t`, where the manifest of `o` is to go. */
  ghost predicate Endless(d: map<Path, Manifest>, o: Path, t: Path) {
    t != [] && ClosedIn(d, o + t) && forall i :: 0 <= i < |t| ==> LinkTo(d, o, t, i)
  }

  ghost predicate Links(d: map<Path, Manifest>, o: Path, t: Path) {
    forall k :: 1 <= k < |t| ==> LinkTo(d, o, t, k)
  }

  predicate AllArrived(s: Store, m: Manifest, i: nat, w: Path)
    requires i <= |m|
  {
    forall k :: 0 <= k < i ==> Arrived(s, m[k], w)
  }

  ghost predicate AllAwait(d: map<Path, Manifest>, m: Manifest, i: nat, j: nat, o: Path)
    requires j <= |m|
  {
    forall k :: i <= k < j ==> Awaits(d, m[k], o)
  }

  ghost predicate ClosedBelow(d: map<Path, Manifest>, w: Path) {
    forall q {:trigger ClosedAt(d, q)} :: q in d && Below(q, w) ==> ClosedAt(d, q)
  }

  /** The loop at entry `i`, in front of the entry `j` that leads to the new root. */
  ghost predicate Circling(s: Store, m: Manifest, i: nat, j: nat, o: Path, t: Path)
    requires i <= j < |m|
  {
    && t != [] && UniqueNames(m) && m[j].name == t[0] && m[j].kind.Dir?
    && o + t in s.dirs && s.dirs[o + t] == m
    && Links(s.dirs, o, t) && AllArrived(s, m, i, o + t) && AllAwait(s.dirs, m, i, j, o) && ClosedBelow(s.dirs, o + t)
  }

  /** A subtree far from a rewrite stays as it was. */
  lemma {:induction false} FarStays(d: map<Path, Manifest>, d1: map<Path, Manifest>, e: Entry, q: Path, o: Path,
                                    w: Path)
    requires Framed(d, d1, o, w) && Awaits(d, e, q) && Incomparable(q + [e.name], o) && Incomparable(q + [e.name], w)
    ensures Awaits(d1, e, q)
  {
    var r := q + [e.name];
    forall p <- d1 | e.kind.Dir? && Within(p, r) ensures ClosedAt(d1, p) {
      if Within(p, w) { BothWithin(p, r, w); }
      assert p in d && d1[p] == d[p] && ClosedAt(d, p);
      forall x <- d1[p] | x.kind.Dir? ensures p + [x.name] in d1 {
        assert Within(p + [x.name], p);
        WithinTransitive(p + [x.name], p, r);
        if Within(p + [x.name], o) { BothWithin(p + [x.name], r, o); }
      }
    }
  }

  /** Different continuations of a path lead apart. */
  lemma {:induction false} Fork(q: Path, x: string, y: string, u: Path, v: Path)
    requires x != y && Within(u, q + [x]) && Within(v, q + [y])
    ensures Incomparable(u, v)
  {
    assert u[|q|] == (q + [x])[|q|] == x && v[|q|] == (q + [y])[|q|] == y;
  }

  lemma {:induction false} Onward(o: Path, t: Path, k: nat)
    requires k < |t|
    ensures Within(o + t, o + t[..k] + [t[k]])
  {
    assert o + t[..k] + [t[k]] == (o + t)[..|o| + k + 1];
  }

  /** Moving a child aside leaves the later links alone. */
  lemma {:induction false} LinkStays(d: map<Path, Manifest>, d1: map<Path, Manifest>, o: Path, t: Path, k: nat,
                                     n: string)
    requires 1 <= k < |t| && n != t[0] && Link(d, o + t[..k], t[k]) && Framed(d, d1, o + [n], o + t + [n])
    ensures Link(d1, o + t[..k], t[k])
  {
    var q, w := o + t[..k], o + t;
    assert Within(q, o + [t[0]]) by { assert q[..|o| + 1] == o + [t[0]]; }
    Fork(o, t[0], n, q, o + [n]);
    assert !Within(q, w + [n]) by { assert |q| < |w|; }
    assert d1[q] == d[q];
    var j :| 0 <= j < |d[q]| && LinkAt(d, q, t[k], j);
    forall i | 0 <= i < j ensures Awaits(d1, d1[q][i], q) {
      var e := d[q][i];
      assert Awaits(d, e, q);
      assert Within(q + [e.name], q);
      WithinTransitive(q + [e.name], q, o + [t[0]]);
      Fork(o, t[0], n, q + [e.name], o + [n]);
      Onward(o, t, k);
      assert Within(w + [n], w);
      WithinTransitive(w + [n], w, q + [t[k]]);
      Fork(q, e.name, t[k], q + [e.name], w + [n]);
      FarStays(d, d1, e, q, o + [n], w + [n]);
    }
    assert LinkAt(d1, q, t[k], j);
  }

  /** The step for a child `n` with a name other than the first of `t`. */
  ghost predicate Aside(s: Store, s1: Store, o: Path, t: Path, n: string) {
    && t != [] && n != t[0]
    && Framed(s.dirs, s1.dirs, o + [n], o + t + [n]) && Framed(s.files, s1.files, o + [n], o + t + [n])
    && TidyBelow(s.dirs, s1.dirs, o + [n], o + t + [n])
    && (o + t + [n] in s1.dirs ==>
          (o + t + [n] in s.dirs && s1.dirs[o + t + [n]] == s.dirs[o + t + [n]]) || ClosedAt(s1.dirs, o + t + [n]))
  }

  lemma {:induction false} LinksStay(s: Store, s1: Store, o: Path, t: Path, n: string)
    requires Aside(s, s1, o, t, n) && Links(s.dirs, o, t)
    ensures Links(s1.dirs, o, t)
  {
    forall k | 1 <= k < |t| ensures LinkTo(s1.dirs, o, t, k) {
      assert LinkTo(s.dirs, o, t, k);
      LinkStays(s.dirs, s1.dirs, o, t, k, n);
    }
  }

  lemma {:induction false} ArrivalsStay(s: Store, s1: Store, m: Manifest, i: nat, o: Path, t: Path, n: string)
    requires Aside(s, s1, o, t, n) && i < |m| && AllArrived(s, m, i, o + t) && Arrived(s1, m[i], o + t)
    ensures AllArrived(s1, m, i + 1, o + t)
  {
    forall k | 0 <= k < i ensures Arrived(s1, m[k], o + t) {
      AsideOf(o, t, n, o + t + [m[k].name]);
    }
  }

  lemma {:induction false} AwaitingStay(s: Store, s1: Store, m: Manifest, i: nat, j: nat, o: Path, t: Path)
    requires i < j <= |m| && UniqueNames(m) && Aside(s, s1, o, t, m[i].name) && AllAwait(s.dirs, m, i, j, o)
    ensures AllAwait(s1.dirs, m, i + 1, j, o)
  {
    forall k | i + 1 <= k < j ensures Awaits(s1.dirs, m[k], o) {
      AwaitsStays(s.dirs, s1.dirs, m[k], o, o + t, m[i].name);
    }
  }

  lemma {:induction false} ClosedStays(s: Store, s1: Store, o: Path, t: Path, n: string)
    requires Aside(s, s1, o, t, n) && ClosedBelow(s.dirs, o + t)
    ensures ClosedBelow(s1.dirs, o + t)
  {
    forall q <- s1.dirs | Below(q, o + t) ensures ClosedAt(s1.dirs, q) {
      CircleClosed(s.dirs, s1.dirs, o, t, n, q);
    }
  }

  lemma {:induction false} CircleNext(s: Store, s1: Store, m: Manifest, i: nat, j: nat, o: Path, t: Path)
    requires i < j < |m| && Circling(s, m, i, j, o, t) && Arrived(s1, m[i], o + t) && Aside(s, s1, o, t, m[i].name)
    ensures Circling(s1, m, i + 1, j, o, t)
  {
    var n, w := m[i].name, o + t;
    AsideOf(o, t, n, w);
    ChildPrefix(w, n, w);
    assert w in s1.dirs && s1.dirs[w] == m;
    LinksStay(s, s1, o, t, n);
    ArrivalsStay(s, s1, m, i, o, t, n);
    AwaitingStay(s, s1, m, i, j, o, t);
    ClosedStays(s, s1, o, t, n);
  }

  /** What lies below the new root is aside of a child with another name. */
  lemma {:induction false} AsideOf(o: Path, t: Path, n: string, q: Path)
    requires t != [] && n != t[0] && Within(q, o + t)
    ensures Incomparable(q, o + [n])
  {
    Onward(o, t, 0);
    assert o + t[..0] == o;
    WithinTransitive(q, o + t, o + [t[0]]);
    Fork(o, t[0], n, q, o + [n]);
  }

  lemma {:induction false} CircleClosed(d: map<Path, Manifest>, d1: map<Path, Manifest>, o: Path, t: Path, n: string,
                                        q: Path)
    requires t != [] && n != t[0] && q in d1 && Below(q, o + t) && (q in d ==> ClosedAt(d, q))
    requires Framed(d, d1, o + [n], o + t + [n]) && TidyBelow(d, d1, o + [n], o + t + [n])
    requires q == o + t + [n] ==> (q in d && d1[q] == d[q]) || ClosedAt(d1, q)
    ensures ClosedAt(d1, q)
  {
    AsideOf(o, t, n, q);
    ParentChild(o, n);
    if q in d && d1[q] == d[q] {
      StaysClosed(d, d1, q, o + [n], o + t + [n]);
    }
  }

  /** Renaming a directory to a directory below it uses up any stack: with each turn
      the same chain of manifests lies one step further down. */
  lemma {:induction false} RewriteEndless(s: Store, o: Path, t: Path, frames: nat)
    requires Endless(s.dirs, o, t)
    ensures Rewrite(s, o, o + t, frames).1 == Crashed
    decreases frames, 0
  {
    if frames > 0 {
      var j := CircleStarts(s, o, t);
      ChildrenCircle(RootMoved(s, o, o + t), s.dirs[o], 0, j, o, t, frames - 1);
    }
  }

  lemma {:induction false} CircleStarts(s: Store, o: Path, t: Path) returns (j: nat)
    requires Endless(s.dirs, o, t)
    ensures o in s.dirs && j < |s.dirs[o]| && Circling(RootMoved(s, o, o + t), s.dirs[o], 0, j, o, t)
  {
    assert o + t[..0] == o;
    assert LinkTo(s.dirs, o, t, 0);
    j :| 0 <= j < |s.dirs[o]| && LinkAt(s.dirs, o, t[0], j);
    var s1, m, w := RootMoved(s, o, o + t), s.dirs[o], o + t;
    forall k | 1 <= k < |t| ensures LinkTo(s1.dirs, o, t, k) {
      assert LinkTo(s.dirs, o, t, k);
      RootLinkStays(s, o, t, k);
    }
    Onward(o, t, 0);
    forall k | 0 <= k < j ensures Awaits(s1.dirs, m[k], o) {
      assert Awaits(s.dirs, m[k], o) && m[k].name != t[0];
      Fork(o, m[k].name, t[0], o + [m[k].name], w);
      RootFar(s, o, w, m[k], o);
    }
    forall q <- s1.dirs | Below(q, w) ensures ClosedAt(s1.dirs, q) {
      assert ClosedAt(s.dirs, q);
    }
  }

  lemma {:induction false} RootFar(s: Store, o: Path, w: Path, e: Entry, q: Path)
    requires o in s.dirs && Awaits(s.dirs, e, q) && Within(q, o) && !Within(w, q + [e.name])
    ensures Awaits(RootMoved(s, o, w).dirs, e, q)
  {
    var d1, r := RootMoved(s, o, w).dirs, q + [e.name];
    forall p <- d1 | e.kind.Dir? && Within(p, r) ensures ClosedAt(d1, p) {
      assert p in s.dirs && d1[p] == s.dirs[p] && ClosedAt(s.dirs, p);
    }
  }

  lemma {:induction false} RootLinkStays(s: Store, o: Path, t: Path, k: nat)
    requires o in s.dirs && 1 <= k < |t| && Link(s.dirs, o + t[..k], t[k])
    ensures Link(RootMoved(s, o, o + t).dirs, o + t[..k], t[k])
  {
    var q, w, d1 := o + t[..k], o + t, RootMoved(s, o, o + t).dirs;
    assert |o| < |q| < |w|;
    assert d1[q] == s.dirs[q];
    var j :| 0 <= j < |s.dirs[q]| && LinkAt(s.dirs, q, t[k], j);
    forall i | 0 <= i < j ensures Awaits(d1, d1[q][i], q) {
      Onward(o, t, k);
      Fork(q, d1[q][i].name, t[k], q + [d1[q][i].name], w);
      RootFar(s, o, w, d1[q][i], q);
    }
    assert LinkAt(d1, q, t[k], j);
  }

  lemma {:induction false} ChildrenCircle(s: Store, m: Manifest, i: nat, j: nat, o: Path, t: Path, frames: nat)
    requires i <= j < |m| && Circling(s, m, i, j, o, t)
    ensures RewriteChildren(s, m, i, o, o + t, frames).1 == Crashed
    decreases frames, 2 + |m| - i
  {
    var w := o + t;
    var (s1, r) := RewriteChild(s, m[i], o, w, frames);
    if i == j {
      Turned(s, m, j, o, t);
      RewriteEndless(s, o + [t[0]], t[1..] + [t[0]], frames);
    } else {
      AsideOf(o, t, m[i].name, w + [m[i].name]);
      if m[i].kind.Dir? {
        assert Awaits(s.dirs, m[i], o);
        RewriteClimbs(s, o + [m[i].name], w + [m[i].name], frames);
      }
      if r == Ok {
        ChildFramed(s, m[i], o, w, frames);
        CircleNext(s, s1, m, i, j, o, t);
        ChildrenCircle(s1, m, i + 1, j, o, t, frames);
      }
    }
  }

  /** The copy of the manifest at the new root leads on. */
  lemma {:induction false} LastLink(s: Store, m: Manifest, j: nat, o: Path, t: Path)
    requires j < |m| && Circling(s, m, j, j, o, t)
    ensures Link(s.dirs, o + t, t[0])
  {
    var w := o + t;
    forall k | 0 <= k < j ensures Awaits(s.dirs, m[k], w) {
      assert Arrived(s, m[k], w);
      forall q <- s.dirs | m[k].kind.Dir? && Within(q, w + [m[k].name]) ensures ClosedAt(s.dirs, q) {
        BelowChild(w, m[k].name, q);
      }
    }
    assert LinkAt(s.dirs, w, t[0], j);
  }

  lemma {:induction false} Rotated(o: Path, t: Path, i: nat)
    requires i < |t|
    ensures var t' := t[1..] + [t[0]];
      && |t'| == |t| && o + [t[0]] + t'[..i] == o + t[..i + 1]
      && t'[i] == if i + 1 < |t| then t[i + 1] else t[0]
  {
    var t' := t[1..] + [t[0]];
    assert t'[..i] == t[1..i + 1] && t[..i + 1] == [t[0]] + t[1..i + 1];
  }

  /** One step down, the chain is there again. */
  lemma {:induction false} Turned(s: Store, m: Manifest, j: nat, o: Path, t: Path)
    requires j < |m| && Circling(s, m, j, j, o, t)
    ensures Endless(s.dirs, o + [t[0]], t[1..] + [t[0]])
    ensures o + [t[0]] + (t[1..] + [t[0]]) == o + t + [t[0]]
  {
    var o', t' := o + [t[0]], t[1..] + [t[0]];
    assert o' + t' == o + t + [t[0]];
    forall q <- s.dirs | Within(q, o' + t') ensures ClosedAt(s.dirs, q) {
      BelowChild(o + t, t[0], q);
    }
    LastLink(s, m, j, o, t);
    assert t[..|t|] == t;
    forall i | 0 <= i < |t'| ensures LinkTo(s.dirs, o', t', i) {
      Rotated(o, t, i);
      if i + 1 < |t| { assert LinkTo(s.dirs, o, t, i + 1); }
    }
  }
}
