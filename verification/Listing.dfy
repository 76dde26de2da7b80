/**
 ListVersions of src/storage/versioning.go: the scan of a bucket, the sort by key
 ascending and newest first, the resume point after a marker, and the page.
 */
module Listing {
  import opened Strings
  import opened VersionKeys
  import opened Versioning

  datatype Entry = Entry(key: string, record: Record)

  datatype Page = Page(entries: seq<Entry>, nextKeyMarker: string, nextVersionID: string, isTruncated: bool)

  /** S3 order: key ascending, then newest first. */
  predicate Precedes(e: Entry, f: Entry) {
    Less(e.key, f.key) || (e.key == f.key && Newer(e.record, f.record))
  }

  predicate Ascending(s: seq<Entry>) {
    forall i, j :: 0 <= i < j < |s| ==> Precedes(s[i], s[j])
  }

  predicate HasPrefix(s: string, prefix: string) {
    prefix <= s
  }

  predicate Listed(t: Table, bucket: string, prefix: string, a: Address) {
    a in t && a.bucket == bucket && HasPrefix(a.key, prefix)
  }

  function EntryAt(t: Table, a: Address): Entry
    requires a in t
  {
    Entry(a.key, t[a])
  }

  /** `s` is all versions of the bucket under the prefix, once each and in order. */
  ghost predicate IsListing(t: Table, bucket: string, prefix: string, s: seq<Entry>) {
    && Ascending(s)
    && (forall a <- t :: Listed(t, bucket, prefix, a) ==> EntryAt(t, a) in s)
    && (forall e <- s :: exists a <- t :: Listed(t, bucket, prefix, a) && e == EntryAt(t, a))
  }

  // ---- the order ----

  lemma {:induction false} PrecedesIrreflexive(e: Entry)
    ensures !Precedes(e, e)
  {
    LessIrreflexive(e.key);
    LessIrreflexive(e.record.versionID);
  }

  lemma {:induction false} PrecedesTransitive(e: Entry, f: Entry, g: Entry)
    requires Precedes(e, f) && Precedes(f, g)
    ensures Precedes(e, g)
  {
    if Less(e.key, f.key) && Less(f.key, g.key) {
      LessTransitive(e.key, f.key, g.key);
    }
    LessIrreflexive(e.key);
    if e.key == f.key == g.key {
      NewerTransitive(e.record, f.record, g.record);
    }
  }

  lemma {:induction false} PrecedesTotal(e: Entry, f: Entry)
    requires e.key != f.key || e.record.versionID != f.record.versionID
    ensures Precedes(e, f) || Precedes(f, e)
  {
    LessTotal(e.key, f.key);
    LessTotal(e.record.versionID, f.record.versionID);
  }

  predicate Within(s: seq<Entry>, u: seq<Entry>) {
    forall e <- s :: e in u
  }

  /** A strictly ascending sequence is determined by its members. */
  lemma {:induction false} AscendingUnique(s: seq<Entry>, u: seq<Entry>)
    requires Ascending(s) && Ascending(u) && Within(s, u) && Within(u, s)
    ensures s == u
  {
    assert (s != [] ==> s[0] in u) && (u != [] ==> u[0] in s);
    if s != [] {
      var n, m := |s| - 1, |u| - 1;
      LastIsGreatest(s, u);
      LastIsGreatest(u, s);
      if s[n] != u[m] {
        PrecedesTransitive(s[n], u[m], s[n]);
        PrecedesIrreflexive(s[n]);
      }
      InitWithin(s, u);
      InitWithin(u, s);
      AscendingUnique(s[..n], u[..m]);
      assert s == s[..n] + [s[n]] && u == u[..m] + [u[m]];
    }
  }

  lemma {:induction false} InitWithin(s: seq<Entry>, u: seq<Entry>)
    requires Ascending(s) && s != [] && u != [] && s[|s| - 1] == u[|u| - 1] && Within(s, u)
    ensures Within(s[..|s| - 1], u[..|u| - 1])
  {
    var n := |s| - 1;
    PrecedesIrreflexive(s[n]);
    forall e <- s[..n] ensures e in u[..|u| - 1] {
      var i :| 0 <= i < n && s[i] == e;
      assert Precedes(s[i], s[n]) && s[i] in s;
      var j :| 0 <= j < |u| && u[j] == e;
    }
  }

  lemma {:induction false} LastIsGreatest(s: seq<Entry>, u: seq<Entry>)
    requires Ascending(s) && s != [] && u != [] && Within(u, s)
    ensures u[|u| - 1] == s[|s| - 1] || Precedes(u[|u| - 1], s[|s| - 1])
  {
    assert u[|u| - 1] in s;
    var i :| 0 <= i < |s| && s[i] == u[|u| - 1];
  }

  // ---- the page ----

  /** resumeAfterMarker: behind the marked entry, or from the first larger key. */
  function Resume(s: seq<Entry>, keyMarker: string, versionIDMarker: string): (r: seq<Entry>)
    ensures |r| <= |s|
    ensures keyMarker == "" || versionIDMarker == "" ==> r == s
  {
    if keyMarker == "" || versionIDMarker == "" then s else Skip(s, keyMarker, versionIDMarker)
  }

  function Skip(s: seq<Entry>, keyMarker: string, versionIDMarker: string): (r: seq<Entry>)
    ensures |r| <= |s|
  {
    if s == [] then []
    else if s[0].key == keyMarker && s[0].record.versionID == versionIDMarker then s[1..]
    else if Less(keyMarker, s[0].key) then s
    else Skip(s[1..], keyMarker, versionIDMarker)
  }

  function PageOf(s: seq<Entry>, keyMarker: string, versionIDMarker: string, maxKeys: int): Page {
    var rest := Resume(s, keyMarker, versionIDMarker);
    if maxKeys > 0 && |rest| > maxKeys then
      Page(rest[..maxKeys], rest[maxKeys - 1].key, rest[maxKeys - 1].record.versionID, true)
    else Page(rest, "", "", false)
  }

  /** Keys and version ids are nonempty, as those of S3 requests are. */
  predicate Nonempty(s: seq<Entry>) {
    forall i :: 0 <= i < |s| ==> s[i].key != "" && s[i].record.versionID != ""
  }

  /** Entries of one key have different version ids. */
  ghost predicate DistinctVersions(s: seq<Entry>) {
    forall i, j :: 0 <= i < j < |s| && s[i].key == s[j].key ==> s[i].record.versionID != s[j].record.versionID
  }

  /** Resuming at the entry at `i` continues right behind it. */
  lemma {:induction false} ResumeBehind(s: seq<Entry>, i: nat, k: nat)
    requires Ascending(s) && DistinctVersions(s) && k <= i < |s|
    ensures Skip(s[k..], s[i].key, s[i].record.versionID) == s[i + 1..]
    decreases i - k
  {
    var rest := s[k..];
    assert rest[0] == s[k] && rest[1..] == s[k + 1..];
    if k < i {
      assert Precedes(s[k], s[i]);
      NotBefore(s[k], s[i]);
      ResumeBehind(s, i, k + 1);
    }
  }

  lemma {:induction false} NotBefore(e: Entry, f: Entry)
    requires Precedes(e, f)
    ensures !Less(f.key, e.key)
  {
    LessIrreflexive(e.key);
    if Less(f.key, e.key) && Less(e.key, f.key) {
      LessTransitive(e.key, f.key, e.key);
    }
  }

  /** When the marked version is gone, the listing resumes at the first larger key: what
      is left are exactly the entries of larger keys. */
  lemma {:induction false} ResumePruned(s: seq<Entry>, keyMarker: string, versionIDMarker: string) returns (k: nat)
    requires Ascending(s) && keyMarker != "" && versionIDMarker != ""
    requires forall e <- s :: e.key != keyMarker || e.record.versionID != versionIDMarker
    ensures k <= |s| && Resume(s, keyMarker, versionIDMarker) == s[k..]
    ensures forall i :: 0 <= i < |s| ==> (Less(keyMarker, s[i].key) <==> k <= i)
  {
    if s == [] {
      k := 0;
    } else if Less(keyMarker, s[0].key) {
      k := 0;
      forall i | 0 < i < |s| ensures Less(keyMarker, s[i].key) {
        assert Precedes(s[0], s[i]);
        if s[0].key != s[i].key {
          LessTransitive(keyMarker, s[0].key, s[i].key);
        }
      }
    } else {
      var rest := s[1..];
      assert forall i :: 0 <= i < |rest| ==> rest[i] == s[i + 1];
      var j := ResumePruned(rest, keyMarker, versionIDMarker);
      k := j + 1;
      assert rest[j..] == s[k..];
      forall i | 0 <= i < |s| ensures Less(keyMarker, s[i].key) <==> k <= i {
        if i > 0 { assert s[i] == rest[i - 1]; }
      }
    }
  }

  /** What can be walked page by page. */
  ghost predicate Walkable(s: seq<Entry>) {
    Ascending(s) && DistinctVersions(s) && Nonempty(s)
  }

  /** From an index on, a page is the next `maxKeys` entries, or all of them if that is
      not positive, and its markers resume behind it. */
  lemma {:induction false} PageFrom(s: seq<Entry>, keyMarker: string, versionIDMarker: string, maxKeys: int, k: nat)
    requires Walkable(s) && k <= |s| && Resume(s, keyMarker, versionIDMarker) == s[k..]
    ensures var p := PageOf(s, keyMarker, versionIDMarker, maxKeys);
      if maxKeys <= 0 || |s| - k <= maxKeys then !p.isTruncated && p.entries == s[k..]
      else
        && p.isTruncated && p.entries == s[k..k + maxKeys]
        && Resume(s, p.nextKeyMarker, p.nextVersionID) == s[k + maxKeys..]
  {
    var rest := s[k..];
    if maxKeys > 0 && |s| - k > maxKeys {
      var i := k + maxKeys - 1;
      assert rest[maxKeys - 1] == s[i];
      ResumeBehind(s, i, 0);
      assert s[0..] == s;
    }
  }

  // ---- the listing of a table ----

  lemma {:induction false} ListingIsWalkable(t: Table, bucket: string, prefix: string, s: seq<Entry>)
    requires Filed(t) && IsListing(t, bucket, prefix, s)
    requires forall a <- t :: a.key != "" && a.versionID != ""
    ensures Walkable(s)
  {
    forall i, j | 0 <= i < j < |s| && s[i].key == s[j].key && s[i].record.versionID == s[j].record.versionID
      ensures false
    {
      assert Precedes(s[i], s[j]);
      assert s[i] in s && s[j] in s;
      var a :| a in t && Listed(t, bucket, prefix, a) && s[i] == EntryAt(t, a);
      var b :| b in t && Listed(t, bucket, prefix, b) && s[j] == EntryAt(t, b);
      assert a == b;
      PrecedesIrreflexive(s[i]);
    }
    forall i | 0 <= i < |s| ensures s[i].key != "" && s[i].record.versionID != "" {
      assert s[i] in s;
    }
  }

  lemma {:induction false} ListingUnique(t: Table, bucket: string, prefix: string, s: seq<Entry>, u: seq<Entry>)
    requires IsListing(t, bucket, prefix, s) && IsListing(t, bucket, prefix, u)
    ensures s == u
  {
    forall e <- s ensures e in u {
      var a :| a in t && Listed(t, bucket, prefix, a) && e == EntryAt(t, a);
    }
    forall e <- u ensures e in s {
      var a :| a in t && Listed(t, bucket, prefix, a) && e == EntryAt(t, a);
    }
    AscendingUnique(s, u);
  }

  // ---- the code ----

  /** `x` inserted into `s` behind everything it does not precede. */
  function Insert(s: seq<Entry>, x: Entry): seq<Entry> {
    if s == [] || !Precedes(x, s[|s| - 1]) then s + [x]
    else Insert(s[..|s| - 1], x) + [s[|s| - 1]]
  }

  function Sorted(s: seq<Entry>): seq<Entry> {
    if s == [] then [] else Insert(Sorted(s[..|s| - 1]), s[|s| - 1])
  }

  lemma {:induction false} InsertMembers(s: seq<Entry>, x: Entry, e: Entry)
    ensures e in Insert(s, x) <==> e in s || e == x
  {
    if !(s == [] || !Precedes(x, s[|s| - 1])) {
      InsertMembers(s[..|s| - 1], x, e);
      assert s == s[..|s| - 1] + [s[|s| - 1]];
    }
  }

  ghost predicate Versions(s: seq<Entry>) {
    forall i, j :: 0 <= i < j < |s| ==> s[i].key != s[j].key || s[i].record.versionID != s[j].record.versionID
  }

  lemma {:induction false} InsertAscends(s: seq<Entry>, x: Entry)
    requires Ascending(s) && forall e <- s :: e.key != x.key || e.record.versionID != x.record.versionID
    ensures Ascending(Insert(s, x))
  {
    if s != [] {
      var n := |s| - 1;
      var init, last := s[..n], s[n];
      assert s == init + [last] && last in s;
      PrecedesTotal(last, x);
      if Precedes(x, last) {
        InsertAscends(init, x);
        var r := Insert(init, x);
        forall i | 0 <= i < |r| ensures Precedes(r[i], last) {
          InsertMembers(init, x, r[i]);
        }
      } else {
        forall i | 0 <= i < n ensures Precedes(s[i], x) {
          PrecedesTransitive(s[i], last, x);
        }
      }
    }
  }

  /** The lesser key first; within a key the newest, and of two records of the same time
      the one with the greater id. */
  predicate InOrder(e: Entry, f: Entry) {
    || Less(e.key, f.key)
    || (e.key == f.key && e.record.timestamp > f.record.timestamp)
    || (e.key == f.key && e.record.timestamp == f.record.timestamp && Less(f.record.versionID, e.record.versionID))
  }

  ghost predicate InS3Order(s: seq<Entry>) {
    forall i, j :: 0 <= i < j < |s| ==> InOrder(s[i], s[j])
  }

  lemma {:induction false} SortedFacts(s: seq<Entry>)
    requires Versions(s)
    ensures Ascending(Sorted(s)) && forall e :: e in Sorted(s) <==> e in s
    ensures InS3Order(Sorted(s))
  {
    if s != [] {
      var n := |s| - 1;
      SortedFacts(s[..n]);
      assert s == s[..n] + [s[n]];
      forall e ensures e in Sorted(s) <==> e in s {
        InsertMembers(Sorted(s[..n]), s[n], e);
      }
      InsertAscends(Sorted(s[..n]), s[n]);
    }
  }

  lemma {:induction false} InsertPosition(s: seq<Entry>, x: Entry, j: nat)
    requires j <= |s| && (j == 0 || !Precedes(x, s[j - 1])) && forall k :: j <= k < |s| ==> Precedes(x, s[k])
    ensures Insert(s, x) == s[..j] + [x] + s[j..]
  {
    if j == |s| {
      assert s[..j] == s && s[j..] == [];
      assert s + [x] + [] == s + [x];
    } else {
      var n := |s| - 1;
      InsertPosition(s[..n], x, j);
      assert s[..n][..j] == s[..j] && s[..n][j..] + [s[n]] == s[j..];
    }
  }

  /** The place of `a[i]` among the entries before it. */
  method Slot(a: array<Entry>, i: nat) returns (j: nat)
    requires i < a.Length
    ensures j <= i && (j == 0 || !Precedes(a[i], a[j - 1])) && forall k :: j <= k < i ==> Precedes(a[i], a[k])
  {
    j := i;
    while j > 0 && Precedes(a[i], a[j - 1])
      invariant 0 <= j <= i && forall k :: j <= k < i ==> Precedes(a[i], a[k])
    {
      j := j - 1;
    }
  }

  /** Moves `a[i]` to `j` and the entries between one place on. */
  method ShiftInto(a: array<Entry>, i: nat, j: nat)
    requires j <= i < a.Length
    modifies a
    ensures a[..i + 1] == old(a[..j] + [a[i]] + a[j..i])
    ensures a[i + 1..] == old(a[i + 1..])
  {
    var x := a[i];
    var k := i;
    while k > j
      invariant j <= k <= i
      invariant forall m :: 0 <= m < a.Length ==> a[m] == if k < m <= i then old(a[m - 1]) else old(a[m])
    {
      a[k] := a[k - 1];
      k := k - 1;
    }
    a[j] := x;
  }

  method InsertInto(a: array<Entry>, i: nat)
    requires i < a.Length
    modifies a
    ensures a[..i + 1] == Insert(old(a[..i]), old(a[i]))
    ensures a[i + 1..] == old(a[i + 1..])
  {
    var j := Slot(a, i);
    ghost var s := a[..i];
    InsertPosition(s, a[i], j);
    assert s[..j] == a[..j] && s[j..] == a[j..i];
    ShiftInto(a, i, j);
  }

  method SortVersionEntries(a: array<Entry>)
    modifies a
    ensures a[..] == Sorted(old(a[..]))
  {
    ghost var all := a[..];
    for i := 0 to a.Length
      invariant a[..i] == Sorted(all[..i])
      invariant a[i..] == all[i..]
    {
      assert a[i] == a[i..][0] == all[i];
      assert all[..i + 1][..i] == all[..i];
      InsertInto(a, i);
      assert all[i..][1..] == all[i + 1..];
    }
    assert all[..a.Length] == all && a[..a.Length] == a[..];
  }

  /** The scan, in whatever order the cursor goes. */
  method ScanVersionEntries(t: Table, bucket: string, prefix: string) returns (s: seq<Entry>)
    requires Filed(t)
    ensures Versions(s)
    ensures forall e :: e in s <==> exists a <- t :: Listed(t, bucket, prefix, a) && e == EntryAt(t, a)
  {
    s := [];
    var todo := t.Keys;
    while todo != {}
      invariant todo <= t.Keys && Versions(s)
      invariant forall e <- s :: exists a <- t :: a !in todo && Listed(t, bucket, prefix, a) && e == EntryAt(t, a)
      invariant forall a <- t :: a !in todo && Listed(t, bucket, prefix, a) ==> EntryAt(t, a) in s
    {
      var a :| a in todo;
      todo := todo - {a};
      if a.bucket == bucket && HasPrefix(a.key, prefix) {
        ghost var before := s;
        s := s + [EntryAt(t, a)];
        forall i | 0 <= i < |before|
          ensures before[i].key != a.key || before[i].record.versionID != t[a].versionID
        {
          assert before[i] in before;
        }
      }
    }
  }

  method ResumeAfterMarker(s: seq<Entry>, keyMarker: string, versionIDMarker: string) returns (r: seq<Entry>)
    ensures r == Resume(s, keyMarker, versionIDMarker)
  {
    if keyMarker == "" || versionIDMarker == "" {
      return s;
    }
    assert s[0..] == s;
    for i := 0 to |s|
      invariant Skip(s[i..], keyMarker, versionIDMarker) == Skip(s, keyMarker, versionIDMarker)
    {
      assert s[i..][0] == s[i] && s[i..][1..] == s[i + 1..];
      if s[i].key == keyMarker && s[i].record.versionID == versionIDMarker {
        return s[i + 1..];
      }
      if Less(keyMarker, s[i].key) {
        return s[i..];
      }
    }
    r := [];
  }

  /** ListVersions answers with a page of the one listing of the table. */
  method ListVersions(t: Table, bucket: string, prefix: string, keyMarker: string, versionIDMarker: string,
                      maxKeys: int)
    returns (page: Page)
    requires Filed(t)
    ensures IsPage(t, bucket, prefix, keyMarker, versionIDMarker, maxKeys, page)
  {
    var s := ScanVersionEntries(t, bucket, prefix);
    var entries := new Entry[|s|](i requires 0 <= i < |s| => s[i]);
    assert entries[..] == s;
    SortVersionEntries(entries);
    SortedFacts(s);
    assert IsListing(t, bucket, prefix, entries[..]);
    var rest := ResumeAfterMarker(entries[..], keyMarker, versionIDMarker);
    page := Paginate(rest, maxKeys);
  }

  method Paginate(entries: seq<Entry>, maxKeys: int) returns (page: Page)
    ensures page == if maxKeys > 0 && |entries| > maxKeys
                    then Page(entries[..maxKeys], entries[maxKeys - 1].key, entries[maxKeys - 1].record.versionID, true)
                    else Page(entries, "", "", false)
  {
    var kept, truncated := entries, false;
    if maxKeys > 0 && |entries| > maxKeys {
      kept, truncated := entries[..maxKeys], true;
    }
    page := Page(kept, "", "", truncated);
    if truncated && |kept| > 0 {
      var last := kept[|kept| - 1];
      page := page.(nextKeyMarker := last.key, nextVersionID := last.record.versionID);
    }
  }

  /** The page is one of the listing of the table. */
  ghost predicate IsPage(t: Table, bucket: string, prefix: string, keyMarker: string, versionIDMarker: string,
                         maxKeys: int, page: Page) {
    exists all :: IsListing(t, bucket, prefix, all) && page == PageOf(all, keyMarker, versionIDMarker, maxKeys)
  }

  lemma {:induction false} ResumeIsSuffix(s: seq<Entry>, keyMarker: string, versionIDMarker: string)
    ensures var r := Resume(s, keyMarker, versionIDMarker); |r| <= |s| && r == s[|s| - |r|..]
  {
    if s != [] && keyMarker != "" && versionIDMarker != "" {
      ResumeIsSuffix(s[1..], keyMarker, versionIDMarker);
      var r := Skip(s[1..], keyMarker, versionIDMarker);
      assert s[1..][|s| - 1 - |r|..] == s[|s| - |r|..];
    }
  }

  lemma {:induction false} OrderIsS3(s: seq<Entry>)
    requires Ascending(s)
    ensures InS3Order(s)
  {
    forall i, j | 0 <= i < j < |s| ensures InOrder(s[i], s[j]) {
      assert Precedes(s[i], s[j]);
    }
  }

  lemma {:induction false} PageIsSlice(all: seq<Entry>, keyMarker: string, versionIDMarker: string, maxKeys: int)
    returns (k: nat)
    ensures var p := PageOf(all, keyMarker, versionIDMarker, maxKeys).entries;
      k + |p| <= |all| && p == all[k..k + |p|]
  {
    ResumeIsSuffix(all, keyMarker, versionIDMarker);
    k := |all| - |Resume(all, keyMarker, versionIDMarker)|;
  }

  lemma {:induction false} SliceInOrder(s: seq<Entry>, i: nat, j: nat)
    requires InS3Order(s) && i <= j <= |s|
    ensures InS3Order(s[i..j])
  {
    var u := s[i..j];
    forall a, b | 0 <= a < b < |u| ensures InOrder(u[a], u[b]) {
      assert u[a] == s[i + a] && u[b] == s[i + b];
    }
  }

  /** A page holds versions of the bucket under the prefix, in order. */
  lemma {:induction false} PageInOrder(t: Table, bucket: string, prefix: string, keyMarker: string,
                                       versionIDMarker: string, maxKeys: int, page: Page)
    requires IsPage(t, bucket, prefix, keyMarker, versionIDMarker, maxKeys, page)
    ensures InS3Order(page.entries)
    ensures forall e <- page.entries :: Versioned(t, bucket, prefix, e)
  {
    var all :| IsListing(t, bucket, prefix, all) && page == PageOf(all, keyMarker, versionIDMarker, maxKeys);
    var k := PageIsSlice(all, keyMarker, versionIDMarker, maxKeys);
    OrderIsS3(all);
    SliceInOrder(all, k, k + |page.entries|);
    forall e <- page.entries ensures Versioned(t, bucket, prefix, e) {
      assert e in all;
    }
  }

  /** The entry is a version of the bucket under the prefix. */
  ghost predicate Versioned(t: Table, bucket: string, prefix: string, e: Entry) {
    exists a <- t :: a.bucket == bucket && prefix <= a.key && e == Entry(a.key, t[a])
  }

  lemma {:induction false} ListingHasAll(t: Table, bucket: string, prefix: string, s: seq<Entry>)
    requires IsListing(t, bucket, prefix, s)
    ensures forall e <- s :: Versioned(t, bucket, prefix, e)
    ensures forall a <- t :: a.bucket == bucket && prefix <= a.key ==> Entry(a.key, t[a]) in s
  {
    forall a <- t | a.bucket == bucket && prefix <= a.key ensures Entry(a.key, t[a]) in s {
      assert Listed(t, bucket, prefix, a);
    }
  }

  /** What a page from index `k` on adds to what was received before. */
  ghost predicate Received(all: seq<Entry>, page: Page, out: seq<Entry>) {
    && out <= all
    && if page.isTruncated then |out| < |all| && Resume(all, page.nextKeyMarker, page.nextVersionID) == all[|out|..]
       else out == all
  }

  lemma {:induction false} PageOfThe(t: Table, bucket: string, prefix: string, all: seq<Entry>, keyMarker: string,
                                     versionIDMarker: string, maxKeys: int, page: Page)
    requires IsPage(t, bucket, prefix, keyMarker, versionIDMarker, maxKeys, page) && IsListing(t, bucket, prefix, all)
    ensures page == PageOf(all, keyMarker, versionIDMarker, maxKeys)
  {
    var same :| IsListing(t, bucket, prefix, same) && page == PageOf(same, keyMarker, versionIDMarker, maxKeys);
    ListingUnique(t, bucket, prefix, all, same);
  }

  lemma {:induction false} NextPage(all: seq<Entry>, keyMarker: string, versionIDMarker: string, maxKeys: int,
                                    page: Page, out: seq<Entry>)
    requires page == PageOf(all, keyMarker, versionIDMarker, maxKeys)
    requires Walkable(all) && maxKeys >= 1 && out <= all && Resume(all, keyMarker, versionIDMarker) == all[|out|..]
    ensures Received(all, page, out + page.entries) && (page.isTruncated ==> page.entries != [])
  {
    PageFrom(all, keyMarker, versionIDMarker, maxKeys, |out|);
    assert out == all[..|out|];
  }

  /** A client that follows the markers gets the whole listing. */
  method FollowMarkers(t: Table, bucket: string, prefix: string, maxKeys: int) returns (out: seq<Entry>)
    requires Filed(t) && maxKeys >= 1 && forall a <- t :: a.key != "" && a.versionID != ""
    ensures IsListing(t, bucket, prefix, out) && InS3Order(out)
    ensures forall e <- out :: Versioned(t, bucket, prefix, e)
    ensures forall a <- t :: a.bucket == bucket && prefix <= a.key ==> Entry(a.key, t[a]) in out
  {
    var page := ListVersions(t, bucket, prefix, "", "", maxKeys);
    ghost var all :| IsListing(t, bucket, prefix, all) && page == PageOf(all, "", "", maxKeys);
    ListingIsWalkable(t, bucket, prefix, all);
    assert all[0..] == all;
    NextPage(all, "", "", maxKeys, page, []);
    out := page.entries;
    assert [] + out == out;
    while page.isTruncated
      invariant Received(all, page, out)
      decreases |all| - |out|
    {
      ghost var last := page;
      page := ListVersions(t, bucket, prefix, page.nextKeyMarker, page.nextVersionID, maxKeys);
      PageOfThe(t, bucket, prefix, all, last.nextKeyMarker, last.nextVersionID, maxKeys, page);
      NextPage(all, last.nextKeyMarker, last.nextVersionID, maxKeys, page, out);
      out := out + page.entries;
    }
    OrderIsS3(out);
    ListingHasAll(t, bucket, prefix, out);
  }
}
