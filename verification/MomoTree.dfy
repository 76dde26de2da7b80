module MomoTree {

  // The tree of the momo filesystem, held in the content-addressed store.
  //
  // A directory is a manifest object stored under a key derived from its path, and
  // a file is an object reference stored under a key derived from its path. The
  // keys are hashes of the path with different prefixes, so the store is modelled
  // as two maps keyed by path: `dirs` (manifest objects) and `files` (the content
  // hash each file reference points at).

  /** A cleaned absolute path as its segments; `[]` is the root "/". */
  type Path = seq<string>

  datatype Kind = File | Dir

  datatype Entry = Entry(name: string, kind: Kind, mode: nat, uid: nat, gid: nat,
                         size: nat, mtime: int, hash: string)

  type Manifest = seq<Entry>

  datatype Option<+T> = None | Some(value: T)

  datatype Errno = EINVAL | EEXIST | ENOENT | EISDIR | ENOTEMPTY | EBUSY | EPERM | EFBIG

  /** `Crashed`: the stack ran out and the process died. */
  datatype Status = Ok | Err(errno: Errno) | Crashed

  datatype Store = Store(dirs: map<Path, Manifest>, files: map<Path, string>)

  const MAX_FILE_SIZE := 1024 * 1024 * 1024

  // ---- paths ----

  function Parent(p: Path): Path {
    if p == [] then [] else p[..|p| - 1]
  }

  function Base(p: Path): string {
    if p == [] then "/" else p[|p| - 1]
  }

  /** `q` is `p` or below it. */
  predicate Within(q: Path, p: Path) {
    p <= q
  }

  /** `q` is strictly below `p`. */
  predicate Below(q: Path, p: Path) {
    Within(q, p) && p != q
  }

  /** The path that has the position below `to` that `p` has below `from`. */
  function Rebase(p: Path, from: Path, to: Path): Path
    requires Within(p, from)
  {
    to + p[|from|..]
  }

  // ---- manifests ----

  function FindEntry(m: Manifest, base: string): (r: Option<Entry>)
    ensures r.Some? ==> r.value in m && r.value.name == base
    ensures r.None? <==> forall e <- m :: e.name != base
  {
    if m == [] then None else if m[0].name == base then Some(m[0]) else FindEntry(m[1..], base)
  }

  /** The entry found is the first one of the name. */
  lemma {:induction false} FindsFirst(m: Manifest, base: string) returns (j: nat)
    requires FindEntry(m, base).Some?
    ensures j < |m| && m[j] == FindEntry(m, base).value && forall i :: 0 <= i < j ==> m[i].name != base
  {
    if m[0].name == base {
      j := 0;
    } else {
      var k := FindsFirst(m[1..], base);
      j := k + 1;
      assert forall i :: 0 < i < j ==> m[i] == m[1..][i - 1];
    }
  }

  /** The manifest without the child named `base`, the others in their order. */
  function Without(m: Manifest, base: string): (r: Manifest)
    ensures forall e :: e in r <==> e in m && e.name != base
  {
    if m == [] then []
    else if m[0].name == base then Without(m[1..], base)
    else [m[0]] + Without(m[1..], base)
  }

  lemma {:induction false} WithoutSnoc(m: Manifest, e: Entry, base: string)
    ensures Without(m + [e], base) == Without(m, base) + (if e.name == base then [] else [e])
  {
    if m == [] {
      assert [e][1..] == [];
    } else {
      assert (m + [e])[1..] == m[1..] + [e];
      WithoutSnoc(m[1..], e, base);
    }
  }

  /** removeEntry: compacts the slice in place and returns the new length. */
  method RemoveEntry(entries: array<Entry>, base: string) returns (n: nat)
    modifies entries
    ensures n <= entries.Length
    ensures entries[..n] == Without(old(entries[..]), base)
  {
    ghost var all := entries[..];
    n := 0;
    for i := 0 to entries.Length
      invariant n <= i && entries[..n] == Without(all[..i], base) && entries[i..] == all[i..]
    {
      var e := entries[i];
      KeptPrefix(all, i, e, entries[..], n, base);
      if e.name != base {
        ghost var kept := entries[..n];
        entries[n] := e;
        n := n + 1;
        assert entries[..n] == kept + [e];
      }
    }
    assert all[..entries.Length] == all;
  }

  /** One more entry of `all`, of which `now` holds the rest unchanged. */
  lemma {:induction false} KeptPrefix(all: Manifest, i: nat, e: Entry, now: Manifest, n: nat, base: string)
    requires n <= i < |all| && |now| == |all| && now[i..] == all[i..] && e == now[i]
    ensures Without(all[..i + 1], base) == Without(all[..i], base) + (if e.name == base then [] else [e])
    ensures now[i + 1..] == all[i + 1..]
  {
    assert now[i..][0] == all[i..][0] && now[i..][1..] == all[i..][1..];
    assert all[..i + 1] == all[..i] + [e];
    WithoutSnoc(all[..i], e, base);
  }

  predicate UniqueNames(m: Manifest) {
    forall i, j :: 0 <= i < j < |m| ==> m[i].name != m[j].name
  }

  lemma {:induction false} UniqueWithout(m: Manifest, base: string)
    requires UniqueNames(m)
    ensures UniqueNames(Without(m, base))
  {
    if m != [] {
      UniqueWithout(m[1..], base);
      var r := Without(m[1..], base);
      forall k | 0 <= k < |r| ensures r[k].name != m[0].name {
        assert r[k] in m[1..];
      }
    }
  }

  lemma {:induction false} FindWithout(m: Manifest, base: string, other: string)
    ensures FindEntry(Without(m, base), other) == if other == base then None else FindEntry(m, other)
  {
    if m != [] {
      FindWithout(m[1..], base, other);
      if m[0].name != base {
        var r := Without(m[1..], base);
        assert ([m[0]] + r)[1..] == r;
      }
    }
  }

  lemma {:induction false} FindSnoc(m: Manifest, e: Entry, base: string)
    ensures FindEntry(m + [e], base) ==
            if FindEntry(m, base).Some? then FindEntry(m, base) else if e.name == base then Some(e) else None
  {
    if m != [] {
      assert (m + [e])[1..] == m[1..] + [e];
      FindSnoc(m[1..], e, base);
    }
  }

  lemma {:induction false} FindUnique(m: Manifest, i: nat)
    requires UniqueNames(m) && i < |m|
    ensures FindEntry(m, m[i].name) == Some(m[i])
  {
    if i > 0 {
      FindUnique(m[1..], i - 1);
    }
  }

  // ---- the tree held in the store ----

  /** readManifest: a missing root reads as an empty manifest. */
  function ReadManifest(dirs: map<Path, Manifest>, p: Path): Option<Manifest> {
    if p in dirs then Some(dirs[p]) else if p == [] then Some([]) else None
  }

  /** entryIn: the entry a lookup of `p` finds in the manifest of its parent. */
  function EntryAt(dirs: map<Path, Manifest>, p: Path): Option<Entry> {
    match ReadManifest(dirs, Parent(p))
    case None => None
    case Some(m) => FindEntry(m, Base(p))
  }

  /** What the store holds under the two keys of `p` is what its entry says. */
  predicate NodeOk(dirs: map<Path, Manifest>, files: map<Path, string>, p: Path) {
    match EntryAt(dirs, p)
    case None => p !in dirs && p !in files
    case Some(e) =>
      if e.kind.Dir? then p in dirs && p !in files
      else p !in dirs && p in files && files[p] == e.hash
  }

  /** Names are unique, and entries and stored objects correspond exactly. */
  ghost predicate WellFormed(dirs: map<Path, Manifest>, files: map<Path, string>) {
    && [] !in files
    && (forall p <- dirs :: UniqueNames(dirs[p]))
    && (forall p: Path :: p != [] ==> NodeOk(dirs, files, p))
  }

  /** The part of well-formedness that concerns the subtree below `r`. */
  ghost predicate SubtreeOk(dirs: map<Path, Manifest>, files: map<Path, string>, r: Path) {
    && r in dirs && r !in files
    && (forall p <- dirs :: Within(p, r) ==> UniqueNames(dirs[p]))
    && (forall p: Path :: Below(p, r) ==> NodeOk(dirs, files, p))
  }

  ghost predicate Vacant<V>(m: map<Path, V>, r: Path) {
    forall p <- m :: !(Within(p, r))
  }

  predicate SameAt<V(==)>(m1: map<Path, V>, p1: Path, m0: map<Path, V>, p0: Path) {
    (p1 in m1 <==> p0 in m0) && (p1 in m1 ==> m1[p1] == m0[p0])
  }

  predicate Incomparable(a: Path, b: Path) {
    !Within(b, a) && !Within(a, b)
  }

  lemma {:induction false} ChildPrefix(r: Path, n: string, p: Path)
    ensures Within(p, r + [n]) <==> Within(p, r) && |p| > |r| && p[|r|] == n
  {
    if Within(p, r + [n]) {
      assert p[..|r|] == (r + [n])[..|r|] == r;
      assert p[|r|] == (r + [n])[|r|];
    }
  }

  /** Nothing is stored below a name the manifest of `r` does not list. */
  lemma {:induction false} NoOrphans(dirs: map<Path, Manifest>, files: map<Path, string>, r: Path, p: Path)
    requires SubtreeOk(dirs, files, r) && Below(p, r)
    requires p in dirs || p in files
    ensures FindEntry(dirs[r], p[|r|]).Some?
    decreases |p|
  {
    var q := Parent(p);
    assert NodeOk(dirs, files, p);
    if q != r {
      assert Within(q, r) && q[|r|] == p[|r|];
      NoOrphans(dirs, files, r, q);
    }
  }

  /** Below a file entry there is nothing else. */
  lemma {:induction false} NothingBelowFile(dirs: map<Path, Manifest>, files: map<Path, string>, r: Path, f: Path,
                                            p: Path)
    requires SubtreeOk(dirs, files, r) && Below(f, r) && f in files && Below(p, f)
    ensures p !in dirs && p !in files
    decreases |p|
  {
    var q := Parent(p);
    assert Within(f, r) && Within(q, f);
    assert f !in dirs by { assert NodeOk(dirs, files, f); }
    if q != f {
      NothingBelowFile(dirs, files, r, f, q);
    }
    assert q !in dirs;
    assert NodeOk(dirs, files, p);
  }

  ghost function Names(m: Manifest): set<string> {
    set e <- m :: e.name
  }

  lemma {:induction false} BothWithin(p: Path, a: Path, b: Path)
    requires Within(p, a) && Within(p, b)
    ensures !Incomparable(a, b)
  {
    if |a| <= |b| {
      assert a == b[..|a|];
    } else {
      assert b == a[..|b|];
    }
  }

  lemma {:induction false} WithinTransitive(p: Path, q: Path, r: Path)
    requires Within(p, q)
    ensures Within(q, r) ==> Within(p, r)
  {}

  lemma {:induction false} ParentsOutside(src: Path, dst: Path)
    requires src != [] && dst != [] && Incomparable(src, dst)
    ensures !Within(Parent(src), dst) && !Within(Parent(dst), src)
    ensures !Within(Parent(src), src) && !Within(Parent(dst), dst)
    ensures !Within([], src) && !Within([], dst)
  {
    assert Within(src, Parent(src)) && Within(dst, Parent(dst));
    WithinTransitive(src, Parent(src), dst);
    WithinTransitive(dst, Parent(dst), src);
  }

  /** A well-formed tree is well formed below each of its directories. */
  lemma {:induction false} WellFormedSubtree(d: map<Path, Manifest>, f: map<Path, string>, r: Path)
    requires WellFormed(d, f) && r != [] && r in d
    ensures SubtreeOk(d, f, r)
  {
    assert NodeOk(d, f, r);
  }

  /** Below a place that holds no directory nothing is stored. */
  lemma {:induction false} VacantBelow(d: map<Path, Manifest>, f: map<Path, string>, r: Path, p: Path)
    requires WellFormed(d, f) && r != [] && r !in d && Below(p, r)
    ensures p !in d && p !in f
    decreases |p|
  {
    if Parent(p) != r {
      VacantBelow(d, f, r, Parent(p));
    }
    assert NodeOk(d, f, p);
  }

  lemma {:induction false} SamePath(p: Path, q: Path)
    requires p != [] && q != []
    ensures Parent(p) == Parent(q) && Base(p) == Base(q) ==> p == q
  {
    assert p == Parent(p) + [Base(p)] && q == Parent(q) + [Base(q)];
  }

  // ---- updates of the tree ----

  function Children(dirs: map<Path, Manifest>, p: Path): Manifest {
    if p in dirs then dirs[p] else []
  }

  lemma {:induction false} ParentChild(p: Path, n: string)
    ensures Parent(p + [n]) == p && Base(p + [n]) == n
  {}

  /** Changing one entry, and accordingly what is stored for it, keeps the tree
      well formed and every other entry as it was. */
  lemma {:induction false} OneEntryChanged(d: map<Path, Manifest>, f: map<Path, string>, d': map<Path, Manifest>,
                                           f': map<Path, string>, p: Path)
    requires WellFormed(d, f) && p != [] && ReadManifest(d, Parent(p)).Some?
    requires forall q: Path :: q != p && q != Parent(p) ==> SameAt(d', q, d, q)
    requires forall q: Path :: q != p ==> SameAt(f', q, f, q)
    requires Children(d', p) == Children(d, p)
    requires Parent(p) in d' && UniqueNames(d'[Parent(p)])
    requires forall n: string :: n != Base(p) ==> FindEntry(d'[Parent(p)], n) == FindEntry(Children(d, Parent(p)), n)
    requires NodeOk(d', f', p)
    ensures WellFormed(d', f')
    ensures forall q: Path :: q != [] && q != p ==> EntryAt(d', q) == EntryAt(d, q)
  {
    assert Parent(p) != p by { assert |Parent(p)| == |p| - 1; }
    forall q: Path | q != [] && q != p ensures EntryAt(d', q) == EntryAt(d, q) && NodeOk(d', f', q) {
      assert NodeOk(d, f, q) && SameAt(f', q, f, q);
      if Parent(q) == Parent(p) {
        assert Base(q) != Base(p) by {
          assert q == Parent(q) + [Base(q)] && p == Parent(p) + [Base(p)];
        }
      } else if Parent(q) != p {
        assert SameAt(d', Parent(q), d, Parent(q));
      }
      if q != Parent(p) {
        assert SameAt(d', q, d, q);
      }
    }
    forall q <- d' ensures UniqueNames(d'[q]) {
      if q == p {
        assert d'[q] == Children(d, p);
      } else if q != Parent(p) {
        assert SameAt(d', q, d, q);
      }
    }
    assert SameAt(f', [], f, []);
  }

  function NewDir(p: Path, mode: nat, now: int): Entry {
    Entry(Base(p), Dir, mode % 0x1000, 0, 0, 0, now, "")
  }

  /** A file entry; a replaced file keeps its owner. */
  function NewFile(p: Path, mode: nat, size: nat, now: int, hash: string, previous: Option<Entry>): Entry {
    var (uid, gid) := if previous.Some? then (previous.value.uid, previous.value.gid) else (0, 0);
    Entry(Base(p), File, mode % 0x1000, uid, gid, size, now, hash)
  }

  /** The manifest with `e` in place of the entry of that name, or appended. */
  function Replace(m: Manifest, e: Entry): (r: Manifest)
    ensures forall n: string :: FindEntry(r, n) == if n == e.name then Some(e) else FindEntry(m, n)
    ensures forall x <- r :: x == e || x in m
  {
    if m == [] then [e]
    else if m[0].name == e.name then
      assert ([e] + m[1..])[1..] == m[1..];
      [e] + m[1..]
    else
      var rest := Replace(m[1..], e);
      assert ([m[0]] + rest)[1..] == rest;
      [m[0]] + rest
  }

  /** The other entries keep their places, and a new one comes last. */
  lemma {:induction false} ReplacedInPlace(m: Manifest, e: Entry, i: nat)
    requires i < |m|
    ensures |Replace(m, e)| == |m| + (if FindEntry(m, e.name).Some? then 0 else 1)
    ensures Replace(m, e)[i].name == m[i].name
  {
    if m[0].name != e.name && |m| > 1 {
      ReplacedInPlace(m[1..], e, if i > 0 then i - 1 else 0);
    }
  }

  lemma {:induction false} UniqueReplace(m: Manifest, e: Entry)
    requires UniqueNames(m)
    ensures UniqueNames(Replace(m, e))
  {
    if m != [] {
      if m[0].name != e.name {
        UniqueReplace(m[1..], e);
        var rest := Replace(m[1..], e);
        forall k | 0 <= k < |rest| ensures rest[k].name != m[0].name {
          assert rest[k] in rest;
        }
      }
    }
  }

  lemma {:induction false} EntryAppended(d: map<Path, Manifest>, f: map<Path, string>, d': map<Path, Manifest>,
                                         f': map<Path, string>, p: Path, e: Entry)
    requires WellFormed(d, f) && p != [] && ReadManifest(d, Parent(p)).Some? && EntryAt(d, p).None? && e.name == Base(p)
    requires var d1 := d[Parent(p) := Children(d, Parent(p)) + [e]];
             if e.kind.Dir? then d' == d1[p := []] && f' == f else d' == d1 && f' == f[p := e.hash]
    ensures WellFormed(d', f') && EntryAt(d', p) == Some(e)
    ensures forall q: Path :: q != [] && q != p ==> EntryAt(d', q) == EntryAt(d, q)
  {
    var m := Children(d, Parent(p));
    assert |Parent(p)| < |p|;
    assert NodeOk(d, f, p);
    forall n: string
      ensures FindEntry(m + [e], n) ==
              if FindEntry(m, n).Some? then FindEntry(m, n) else if e.name == n then Some(e) else None
    {
      FindSnoc(m, e, n);
    }
    assert FindEntry(m, Base(p)).None?;
    OneEntryChanged(d, f, d', f', p);
  }

  lemma {:induction false} EntryReplaced(d: map<Path, Manifest>, f: map<Path, string>, d': map<Path, Manifest>,
                                         f': map<Path, string>, p: Path, e: Entry)
    requires WellFormed(d, f) && p != [] && ReadManifest(d, Parent(p)).Some? && p !in d && e.name == Base(p) &&
             e.kind.File?
    requires d' == d[Parent(p) := Replace(Children(d, Parent(p)), e)] && f' == f[p := e.hash]
    ensures WellFormed(d', f') && EntryAt(d', p) == Some(e)
    ensures forall q: Path :: q != [] && q != p ==> EntryAt(d', q) == EntryAt(d, q)
  {
    assert |Parent(p)| < |p|;
    UniqueReplace(Children(d, Parent(p)), e);
    OneEntryChanged(d, f, d', f', p);
  }

  lemma {:induction false} EntryRemoved(d: map<Path, Manifest>, f: map<Path, string>, d': map<Path, Manifest>,
                                        f': map<Path, string>, p: Path)
    requires WellFormed(d, f) && p != [] && ReadManifest(d, Parent(p)).Some? && Children(d, p) == []
    requires d' == (d - {p})[Parent(p) := Without(Children(d, Parent(p)), Base(p))] && f' == f - {p}
    ensures WellFormed(d', f') && EntryAt(d', p) == None
    ensures forall q: Path :: q != [] && q != p ==> EntryAt(d', q) == EntryAt(d, q)
  {
    var m := Children(d, Parent(p));
    assert |Parent(p)| < |p|;
    UniqueWithout(m, Base(p));
    forall n: string ensures FindEntry(Without(m, Base(p)), n) == if n == Base(p) then None else FindEntry(m, n) {
      FindWithout(m, Base(p), n);
    }
    OneEntryChanged(d, f, d', f', p);
  }
}
