module Versioning {

  // Version records of src/storage/versioning.go: local records and delete markers,
  // records replicated from peers, deletion with re-pointing of the latest flag, and
  // object lock on versions. A record is stored under the composite key of its
  // `Address`; a transaction whose walk over the records of an object panics is
  // rolled back and reported as an I/O error.

  import opened ObjectLock
  import opened Strings
  import opened VersionKeys

  datatype Record = Record(versionID: string, hash: string, size: int, timestamp: int, isLatest: bool,
                           isDeleteMarker: bool)

  type Table = map<Address, Record>

  // ---- the operations as functions of the table ----

  /** The order of latestVersionTx: by timestamp, then by version id. */
  predicate Newer(r: Record, s: Record) {
    r.timestamp > s.timestamp || (r.timestamp == s.timestamp && Less(s.versionID, r.versionID))
  }

  /** No record of the key of `a` is newer than the one at `a`. */
  predicate IsNewest(t: Table, a: Address) {
    a in t && forall b <- t :: SameKey(a, b) && b != a ==> Newer(t[a], t[b])
  }

  predicate HasKey(t: Table, a: Address) {
    exists b <- t :: SameKey(a, b)
  }

  /** All records of the key of `a` lose the latest flag. */
  function Demoted(t: Table, a: Address): Table {
    map b <- t :: if SameKey(a, b) then t[b].(isLatest := false) else t[b]
  }

  function AfterPut(t: Table, a: Address, r: Record): Table {
    Demoted(t, a)[a := r]
  }

  /** A replicated record takes the flag if none of its key is newer. */
  predicate Promotes(t: Table, a: Address, r: Record) {
    r.isLatest && forall b <- t :: SameKey(a, b) ==> t[b].timestamp <= r.timestamp
  }

  /** A local record, if the walk over its key does not fail. */
  function AfterRecord(t: Table, a: Address, r: Record): Table {
    if ScanFails(t.Keys, a) then t else AfterPut(t, a, r)
  }

  /** A known record needs no walk, and neither does one without the flag. */
  predicate ReplicationFails(t: Table, a: Address, r: Record) {
    !(a in t && t[a] == r) && r.isLatest && ScanFails(t.Keys, a)
  }

  function AfterReplicated(t: Table, a: Address, r: Record): Table {
    if (a in t && t[a] == r) || ReplicationFails(t, a, r) then t else Merged(t, a, r)
  }

  function Merged(t: Table, a: Address, r: Record): Table {
    if Promotes(t, a, r) then AfterPut(t, a, r) else t[a := r.(isLatest := false)]
  }

  /** The newest record of the key gets the flag; `n` is its address. */
  ghost predicate Repointed(t: Table, a: Address, t': Table) {
    if HasKey(t, a) then exists n <- t :: SameKey(a, n) && IsNewest(t, n) && t' == t[n := t[n].(isLatest := true)]
    else t' == t
  }

  /** Re-pointing the flag walks over what is left of the key. */
  predicate DeletionFails(t: Table, a: Address)
    requires a in t
  {
    t[a].isLatest && ScanFails(t.Keys - {a}, a)
  }

  ghost predicate Deleted(t: Table, a: Address, t': Table)
    requires a in t
  {
    if t[a].isLatest then Repointed(t - {a}, a, t') else t' == t - {a}
  }

  /** Every record is stored under its own version id. */
  predicate Filed(t: Table) {
    forall a <- t :: t[a].versionID == a.versionID
  }

  // ---- the store ----

  class VersionStore {
    var versions: Table
    var locks: map<Address, Lock>

    constructor ()
      ensures versions == map[] && locks == map[]
    {
      versions, locks := map[], map[];
    }

    /** putVersion: walks over the records of the key, demotes them and stores `r`. */
    method PutVersion(a: Address, r: Record) returns (s: Status)
      modifies this`versions
      ensures s == if ScanFails(old(versions).Keys, a) then Eio else Ok
      ensures versions == AfterRecord(old(versions), a, r)
      ensures s == Ok ==>
                && versions.Keys == old(versions).Keys + {a} && versions[a] == r
                && forall b <- old(versions) :: b != a ==>
                     versions[b] == if SameKey(a, b) then old(versions)[b].(isLatest := false) else old(versions)[b]
    {
      var t := versions;
      var k := Seek(t.Keys, a);
      WalkStarts(t.Keys, a, k);
      while k.Some?
        invariant Walking(t.Keys, a, k) && Demoting(t, a, k, versions)
        decreases Ahead(t.Keys, k)
      {
        var b := k.value;
        LookTells(t.Keys, a, b);
        if Look(a, b) == Panics {
          versions := t;
          return Eio;
        }
        if Look(a, b) == Differs {
          assert !ScanFails(t.Keys, a);
          break;
        }
        ghost var now := versions;
        if versions[b].isLatest {
          versions := versions[b := versions[b].(isLatest := false)];
        }
        k := Next(t.Keys, b);
        WalkGoesOn(t.Keys, a, b, k);
        DemoteNext(t, a, b, k, now, versions);
      }
      if k.None? {
        WalkRunsOut(t.Keys, a);
      }
      AllDemoted(t, a, k, versions);
      versions := versions[a := r];
      s := Ok;
    }

    /** RecordVersion and RecordDeleteMarker, with the drawn id and the time given. */
    method RecordVersion(bucket: Name, key: Name, r: Record) returns (s: Status)
      modifies this`versions
      ensures var a := Address(bucket, key, r.versionID);
        && s == (if ScanFails(old(versions).Keys, a) then Eio else Ok)
        && versions == AfterRecord(old(versions), a, r.(isLatest := true))
    {
      s := PutVersion(Address(bucket, key, r.versionID), r.(isLatest := true));
    }

    method PutVersionRecord(bucket: Name, key: Name, r: Record) returns (s: Status)
      modifies this`versions
      ensures var a := Address(bucket, key, r.versionID);
        var bad := bucket == "" || key == "" || r.versionID == "";
        && s == (if bad then Einval else if ReplicationFails(old(versions), a, r) then Eio else Ok)
        && versions == if bad then old(versions) else AfterReplicated(old(versions), a, r)
      ensures s == Ok ==>
        var a := Address(bucket, key, r.versionID);
        && versions.Keys == old(versions).Keys + {a} && versions[a].(isLatest := r.isLatest) == r
        && (forall b <- old(versions) :: b != a ==>
              versions[b].(isLatest := old(versions)[b].isLatest) == old(versions)[b])
        && (old(!(a in versions && versions[a] == r)) ==>
              (versions[a].isLatest <==>
                 && r.isLatest
                 && forall b <- old(versions) :: SameKey(a, b) ==> old(versions)[b].timestamp <= r.timestamp))
    {
      if bucket == "" || key == "" || r.versionID == "" {
        return Einval;
      }
      var a := Address(bucket, key, r.versionID);
      s := Ok;
      if a in versions && versions[a] == r {
        return;
      }
      if r.isLatest {
        var latest;
        s, latest := LatestVersion(a);
        if s != Ok {
          return;
        }
        if latest.None? || r.timestamp >= versions[latest.value].timestamp {
          s := PutVersion(a, r);
          return;
        }
      }
      versions := versions[a := r.(isLatest := false)];
    }

    /** latestVersionTx: the address of the newest record of the key of `a`. */
    method LatestVersion(a: Address) returns (s: Status, n: Option<Address>)
      ensures s == if ScanFails(versions.Keys, a) then Eio else Ok
      ensures s == Ok ==> (n.None? <==> !HasKey(versions, a))
      ensures n.Some? ==> n.value in versions && SameKey(a, n.value)
      ensures n.Some? ==> forall b <- versions :: SameKey(a, b) ==> !Newer(versions[b], versions[n.value])
      ensures n.Some? ==>
                forall b <- versions :: SameKey(a, b) ==>
                  && versions[b].timestamp <= versions[n.value].timestamp
                  && (versions[b].timestamp == versions[n.value].timestamp ==>
                        !Less(versions[n.value].versionID, versions[b].versionID))
    {
      n := None;
      var keys := versions.Keys;
      var k := Seek(keys, a);
      WalkStarts(keys, a, k);
      while k.Some?
        invariant Walking(keys, a, k) && Unbeaten(versions, a, k, n)
        decreases Ahead(keys, k)
      {
        var b := k.value;
        LookTells(keys, a, b);
        if Look(a, b) == Panics {
          return Eio, None;
        }
        if Look(a, b) == Differs {
          assert !ScanFails(keys, a);
          break;
        }
        if n.None? || Newer(versions[b], versions[n.value]) {
          Replaces(versions, n, b);
          n := Some(b);
        }
        k := Next(keys, b);
        WalkGoesOn(keys, a, b, k);
      }
      if k.None? {
        WalkRunsOut(keys, a);
      }
      s := Ok;
    }

    method DeleteVersion(a: Address, now: int, bypass: bool) returns (s: Status)
      requires Filed(versions)
      modifies this`versions
      ensures s == if a !in old(versions) then Enoent
                   else if !old(versions)[a].isDeleteMarker && a in locks && Denies(locks[a], now, bypass) then Eacces
                   else if DeletionFails(old(versions), a) then Eio
                   else Ok
      ensures if s == Ok then Deleted(old(versions), a, versions) else versions == old(versions)
      ensures a in old(versions) && !old(versions)[a].isDeleteMarker && a in locks ==>
                var l := locks[a];
                && (l.legalHoldOn ==> s == Eacces)
                && (!l.legalHoldOn && l.mode == COMPLIANCE ==> (s == Eacces <==> now < l.retainUntil))
                && (!l.legalHoldOn && l.mode == GOVERNANCE ==> (s == Eacces <==> now < l.retainUntil && !bypass))
                && (!l.legalHoldOn && l.mode == "" ==> s != Eacces)
    {
      if a in locks {
        DeniesExactly(locks[a], now, bypass);
      }
      if a !in versions {
        return Enoent;
      }
      var before, deleted := versions, versions[a];
      if !deleted.isDeleteMarker && a in locks && Denies(locks[a], now, bypass) {
        return Eacces;
      }
      versions := versions - {a};
      s := Ok;
      if deleted.isLatest {
        var next;
        s, next := LatestVersion(a);
        if s != Ok {
          versions := before;
          return;
        }
        if next.Some? {
          var n := next.value;
          UnbeatenIsNewest(versions, n);
          if !versions[n].isLatest {
            versions := versions[n := versions[n].(isLatest := true)];
          } else {
            assert versions == versions[n := versions[n].(isLatest := true)];
          }
        }
      }
    }

    method MutateVersionLock(a: Address, c: Change, bypass: bool, now: int) returns (s: Status)
      modifies this`locks
      ensures var existing := if a in old(locks) then old(locks)[a] else UNLOCKED;
        && s == (if a.bucket == "" || a.key == "" || a.versionID == "" then Einval
                 else if a !in old(locks) && a !in versions then Enoent
                 else Verdict(existing, Changed(existing, c), bypass, now))
        && locks == if s == Ok then old(locks)[a := Changed(existing, c)] else old(locks)
      ensures s == Ok ==>
        var existing := if a in old(locks) then old(locks)[a] else UNLOCKED;
        && a in locks
        && match c
           case Whole(l) => locks[a] == l
           case Retention(mode, until) => locks[a] == Lock(mode, until, existing.legalHoldOn)
           case LegalHold(on) => locks[a] == Lock(existing.mode, existing.retainUntil, on)
    {
      if a.bucket == "" || a.key == "" || a.versionID == "" {
        return Einval;
      }
      var existing := UNLOCKED;
      if a in locks {
        existing := locks[a];
      } else if a !in versions {
        return Enoent;
      }
      var next := Changed(existing, c);
      s := ValidateLockState(next);
      if s != Ok {
        return;
      }
      s := CheckLockTighten(existing, next, bypass, now);
      if s != Ok {
        return;
      }
      locks := locks[a := next];
    }
  }

  /** The walk at `k` has taken the flag from the records of the key it passed. */
  ghost predicate Demoting(t: Table, a: Address, k: Option<Address>, v: Table) {
    && v.Keys == t.Keys
    && forall b <- t :: v[b] == if SameKey(a, b) && Passed(k, b) then t[b].(isLatest := false) else t[b]
  }

  lemma {:induction false} DemoteNext(t: Table, a: Address, b: Address, k: Option<Address>, v: Table, v': Table)
    requires Demoting(t, a, Some(b), v) && b in t && SameKey(a, b)
    requires forall c <- t.Keys :: Passed(k, c) <==> Passed(Some(b), c) || c == b
    requires v' == if v[b].isLatest then v[b := v[b].(isLatest := false)] else v
    ensures Demoting(t, a, k, v')
  {
    forall c <- t ensures v'[c] == if SameKey(a, c) && Passed(k, c) then t[c].(isLatest := false) else t[c] {
      assert c in t.Keys;
    }
  }

  lemma {:induction false} AllDemoted(t: Table, a: Address, k: Option<Address>, v: Table)
    requires Demoting(t, a, k, v) && forall c <- t.Keys :: SameKey(a, c) ==> Passed(k, c)
    ensures v == Demoted(t, a)
  {
    forall c <- t ensures v[c] == Demoted(t, a)[c] {
      assert c in t.Keys;
    }
  }

  /** `n` is the newest record of the key that the walk at `k` has passed. */
  ghost predicate Unbeaten(t: Table, a: Address, k: Option<Address>, n: Option<Address>) {
    && (n.None? ==> forall b <- t.Keys :: SameKey(a, b) ==> !Passed(k, b))
    && (n.Some? ==> n.value in t && SameKey(a, n.value))
    && (n.Some? ==> forall b <- t.Keys :: SameKey(a, b) && Passed(k, b) ==> !Newer(t[b], t[n.value]))
  }

  /** A record that beats the best so far is not beaten by what that one beat. */
  lemma {:induction false} Replaces(t: Table, n: Option<Address>, b: Address)
    requires b in t && (n.Some? ==> n.value in t && Newer(t[b], t[n.value]))
    ensures !Newer(t[b], t[b])
    ensures n.Some? ==> forall c <- t :: !Newer(t[c], t[n.value]) ==> !Newer(t[c], t[b])
  {
    LessIrreflexive(t[b].versionID);
    if n.Some? {
      forall c <- t | !Newer(t[c], t[n.value]) ensures !Newer(t[c], t[b]) {
        if Newer(t[c], t[b]) {
          NewerTransitive(t[c], t[b], t[n.value]);
        }
      }
    }
  }

  lemma {:induction false} NewerTransitive(r: Record, s: Record, u: Record)
    requires Newer(r, s) && Newer(s, u)
    ensures Newer(r, u)
  {
    if r.timestamp == s.timestamp == u.timestamp {
      LessTransitive(u.versionID, s.versionID, r.versionID);
    }
  }

  lemma {:induction false} UnbeatenIsNewest(t: Table, n: Address)
    requires Filed(t) && n in t && forall b <- t :: SameKey(n, b) ==> !Newer(t[b], t[n])
    ensures IsNewest(t, n)
  {
    forall b <- t | SameKey(n, b) && b != n ensures Newer(t[n], t[b]) {
      LessTotal(t[n].versionID, t[b].versionID);
    }
  }

  // ---- exactly one latest record per key ----

  /** The one record of its key with the flag. */
  ghost predicate IsSole(t: Table, l: Address) {
    l in t && t[l].isLatest && forall b <- t :: SameKey(l, b) && t[b].isLatest ==> b == l
  }

  ghost predicate OneLatestAt(t: Table, a: Address) {
    HasKey(t, a) ==> exists l <- t :: SameKey(a, l) && IsSole(t, l)
  }

  ghost predicate OneLatest(t: Table) {
    forall a :: OneLatestAt(t, a)
  }

  lemma {:induction false} PutKeepsLatest(t: Table, a: Address, r: Record)
    requires OneLatest(t) && r.isLatest
    ensures OneLatest(AfterPut(t, a, r))
  {
    var t' := AfterPut(t, a, r);
    forall b ensures OneLatestAt(t', b) {
      if SameKey(a, b) {
        assert IsSole(t', a);
      } else {
        OtherKey(t, t', a, b);
      }
    }
  }

  /** What changes only records of one key keeps the others as they were. */
  lemma {:induction false} OtherKey(t: Table, t': Table, a: Address, b: Address)
    requires OneLatestAt(t, b) && !SameKey(a, b)
    requires forall c :: !SameKey(a, c) ==> (c in t <==> c in t') && (c in t ==> t'[c] == t[c])
    ensures OneLatestAt(t', b)
  {
    if HasKey(t', b) {
      var c :| c in t' && SameKey(b, c);
      assert !SameKey(a, c);
      assert HasKey(t, b);
      var l :| l in t && SameKey(b, l) && IsSole(t, l);
      assert !SameKey(a, l);
      assert IsSole(t', l);
    }
  }

  /** Storing a record without the flag. */
  lemma {:induction false} UnflaggedKeeps(t: Table, a: Address, r: Record)
    requires OneLatest(t) && !r.isLatest
    ensures OneLatest(t[a := r]) <==> HasKey(t, a) && !(a in t && t[a].isLatest)
  {
    var t' := t[a := r];
    assert a in t' && SameKey(a, a) && HasKey(t', a);
    assert OneLatestAt(t, a);
    if HasKey(t, a) && !(a in t && t[a].isLatest) {
      var l :| l in t && SameKey(a, l) && IsSole(t, l);
      assert IsSole(t', l);
      forall b ensures OneLatestAt(t', b) {
        if !SameKey(a, b) {
          OtherKey(t, t', a, b);
        }
      }
    } else {
      assert forall b <- t' :: SameKey(a, b) ==> !t'[b].isLatest;
      assert !OneLatestAt(t', a);
    }
  }

  /** A replicated record keeps exactly one latest record per key if and only if
      it changes nothing, takes the flag itself, or is stored beside the record
      that has the flag. */
  lemma {:induction false} ReplicatedKeepsLatest(t: Table, a: Address, r: Record)
    requires OneLatest(t)
    ensures OneLatest(AfterReplicated(t, a, r)) <==>
      (a in t && t[a] == r) || ReplicationFails(t, a, r) || Promotes(t, a, r) ||
          (HasKey(t, a) && !(a in t && t[a].isLatest))
  {
    if (a in t && t[a] == r) || ReplicationFails(t, a, r) {
    } else if Promotes(t, a, r) {
      PutKeepsLatest(t, a, r);
    } else {
      UnflaggedKeeps(t, a, r.(isLatest := false));
    }
  }

  lemma {:induction false} RepointKeepsLatest(t: Table, a: Address, t': Table)
    requires (forall b :: !SameKey(a, b) ==> OneLatestAt(t, b)) && Repointed(t, a, t')
    requires forall b <- t :: SameKey(a, b) ==> !t[b].isLatest
    ensures OneLatest(t')
  {
    forall b ensures OneLatestAt(t', b) {
      if !SameKey(a, b) {
        OtherKey(t, t', a, b);
      } else if HasKey(t, a) {
        var n :| n in t && SameKey(a, n) && IsNewest(t, n) && t' == t[n := t[n].(isLatest := true)];
        assert IsSole(t', n);
      }
    }
  }

  lemma {:induction false} DeleteKeepsLatest(t: Table, a: Address, t': Table)
    requires OneLatest(t) && a in t && Deleted(t, a, t')
    ensures OneLatest(t')
  {
    var u := t - {a};
    forall b | !SameKey(a, b) ensures OneLatestAt(u, b) {
      assert OneLatestAt(t, b);
      OtherKey(t, u, a, b);
    }
    assert OneLatestAt(t, a);
    assert HasKey(t, a);
    var l :| l in t && SameKey(a, l) && IsSole(t, l);
    if t[a].isLatest {
      assert l == a;
      RepointKeepsLatest(u, a, t');
    } else {
      assert IsSole(u, l);
    }
  }

  // ---- replicas converge ----

  /** A record on its way to a replica, as the hook of the writing node emits it. */
  datatype Delivery = Delivery(bucket: Name, key: Name, record: Record)

  function AddressOf(d: Delivery): Address {
    Address(d.bucket, d.key, d.record.versionID)
  }

  predicate Accepted(d: Delivery) {
    d.bucket != "" && d.key != "" && d.record.versionID != ""
  }

  function Received(ds: seq<Delivery>): Table {
    if ds == [] then map[]
    else
      var t, d := Received(ds[..|ds| - 1]), ds[|ds| - 1];
      if Accepted(d) then AfterReplicated(t, AddressOf(d), d.record) else t
  }

  /** Hook-produced records: all carry the flag, a version id has one record, and
      no two records of a key share a timestamp. */
  ghost predicate HookProduced(ds: seq<Delivery>) {
    && (forall d <- ds :: d.record.isLatest)
    && (forall d <- ds, e <- ds :: AddressOf(d) == AddressOf(e) ==> d == e)
    && (forall d <- ds, e <- ds :: SameKey(AddressOf(d), AddressOf(e)) && d.record.timestamp == e.record.timestamp ==>
        d == e)
  }

  /** The accepted records by address. */
  function Collected(ds: seq<Delivery>): Table {
    if ds == [] then map[]
    else
      var m, d := Collected(ds[..|ds| - 1]), ds[|ds| - 1];
      if Accepted(d) then m[AddressOf(d) := d.record] else m
  }

  ghost predicate Sent(ds: seq<Delivery>, a: Address, r: Record) {
    exists d <- ds :: Accepted(d) && AddressOf(d) == a && d.record == r
  }

  lemma {:induction false} CollectedFacts(ds: seq<Delivery>)
    ensures forall a <- Collected(ds) :: Sent(ds, a, Collected(ds)[a])
    ensures forall d <- ds :: Accepted(d) ==> AddressOf(d) in Collected(ds)
  {
    if ds != [] {
      var before, d := ds[..|ds| - 1], ds[|ds| - 1];
      CollectedFacts(before);
      assert ds == before + [d];
      forall a <- Collected(ds) ensures Sent(ds, a, Collected(ds)[a]) {
        if Accepted(d) && a == AddressOf(d) {
          assert d in ds;
        } else {
          var e :| e in before && Accepted(e) && AddressOf(e) == a && e.record == Collected(before)[a];
          assert e in ds;
        }
      }
    }
  }

  predicate IsTop(m: Table, a: Address)
    requires a in m
  {
    forall b <- m :: SameKey(a, b) ==> m[b].timestamp <= m[a].timestamp
  }

  /** The records with the flag on the newest of each key. */
  function Flagged(m: Table): Table {
    map a <- m :: m[a].(isLatest := IsTop(m, a))
  }

  ghost predicate Distinct(m: Table) {
    && (forall a <- m :: m[a].isLatest)
    && (forall a <- m, b <- m :: SameKey(a, b) && m[a].timestamp == m[b].timestamp ==> a == b)
  }

  /** A record received again changes nothing. */
  lemma {:induction false} FlaggedAgain(m: Table, a: Address)
    requires a in m && m[a].isLatest
    ensures AfterReplicated(Flagged(m), a, m[a]) == Flagged(m)
  {
    var t := Flagged(m);
    if !IsTop(m, a) {
      var b :| b in m && SameKey(a, b) && m[b].timestamp > m[a].timestamp;
      assert t[b].timestamp > m[a].timestamp;
      assert t == t[a := m[a].(isLatest := false)];
    }
  }

  lemma {:induction false} TopGoesToNewest(m: Table, a: Address, r: Record)
    requires a !in m && forall b <- m :: SameKey(a, b) ==> m[b].timestamp < r.timestamp
    ensures IsTop(m[a := r], a) && forall b <- m :: IsTop(m[a := r], b) <==> !SameKey(a, b) && IsTop(m, b)
  {
    var m' := m[a := r];
    forall b <- m ensures IsTop(m', b) <==> !SameKey(a, b) && IsTop(m, b) {
      if SameKey(a, b) { assert m'[a].timestamp > m'[b].timestamp; }
      if IsTop(m', b) { assert forall c <- m :: m'[c] == m[c]; }
    }
  }

  /** A record newer than all of its key takes the flag. */
  lemma {:induction false} FlaggedNewest(m: Table, a: Address, r: Record)
    requires a !in m && r.isLatest && forall b <- m :: SameKey(a, b) ==> m[b].timestamp < r.timestamp
    ensures Merged(Flagged(m), a, r) == Flagged(m[a := r])
  {
    var t, m' := Flagged(m), m[a := r];
    TopGoesToNewest(m, a, r);
    assert Promotes(t, a, r);
    var u, v := AfterPut(t, a, r), Flagged(m');
    assert u.Keys == v.Keys;
    assert u == v;
  }

  lemma {:induction false} TopStays(m: Table, a: Address, r: Record, b: Address)
    requires a !in m && b in m && SameKey(a, b) && m[b].timestamp > r.timestamp
    ensures !IsTop(m[a := r], a) && forall c <- m :: IsTop(m[a := r], c) <==> IsTop(m, c)
  {
    var m' := m[a := r];
    assert m'[b].timestamp > m'[a].timestamp;
    forall c <- m ensures IsTop(m', c) <==> IsTop(m, c) {
      if IsTop(m, c) && SameKey(a, c) { assert m[b].timestamp <= m[c].timestamp; }
      if IsTop(m', c) { assert forall d <- m :: m'[d] == m[d]; }
    }
  }

  lemma {:induction false} FlaggedWithout(m: Table, a: Address, r: Record)
    requires a !in m && !IsTop(m[a := r], a) && forall c <- m :: IsTop(m[a := r], c) <==> IsTop(m, c)
    ensures Flagged(m)[a := r.(isLatest := false)] == Flagged(m[a := r])
  {
    var u, v := Flagged(m)[a := r.(isLatest := false)], Flagged(m[a := r]);
    assert u.Keys == v.Keys;
    forall c <- u ensures u[c] == v[c] {}
  }

  /** An older record goes in without it. */
  lemma {:induction false} FlaggedOlder(m: Table, a: Address, r: Record, b: Address)
    requires a !in m && b in m && SameKey(a, b) && m[b].timestamp > r.timestamp
    ensures Merged(Flagged(m), a, r) == Flagged(m[a := r])
  {
    TopStays(m, a, r, b);
    FlaggedWithout(m, a, r);
    var t := Flagged(m);
    assert b in t && t[b].timestamp > r.timestamp;
    assert !Promotes(t, a, r);
  }

  /** One more record: where it goes in depends only on the set so far. */
  lemma {:induction false} FlaggedStep(m: Table, a: Address, r: Record)
    requires Distinct(m) && Distinct(m[a := r]) && (a in m ==> m[a] == r) && !ScanFails(m.Keys, a)
    ensures AfterReplicated(Flagged(m), a, r) == Flagged(m[a := r])
  {
    var m' := m[a := r];
    assert m'[a] == r && Flagged(m).Keys == m.Keys;
    if a in m {
      assert m' == m;
      FlaggedAgain(m, a);
    } else if exists b <- m :: SameKey(a, b) && m[b].timestamp > r.timestamp {
      var b :| b in m && SameKey(a, b) && m[b].timestamp > r.timestamp;
      FlaggedOlder(m, a, r, b);
    } else {
      forall b <- m | SameKey(a, b) ensures m[b].timestamp < r.timestamp {
        assert m'[b] == m[b];
      }
      FlaggedNewest(m, a, r);
    }
  }

  lemma {:induction false} CollectedDistinct(ds: seq<Delivery>)
    requires HookProduced(ds)
    ensures Distinct(Collected(ds))
    ensures forall d <- ds :: Accepted(d) ==> AddressOf(d) in Collected(ds) && Collected(ds)[AddressOf(d)] == d.record
  {
    var m := Collected(ds);
    CollectedFacts(ds);
    forall a <- m ensures m[a].isLatest {
      var d :| d in ds && Accepted(d) && AddressOf(d) == a && d.record == m[a];
    }
    forall a <- m, b <- m | SameKey(a, b) && m[a].timestamp == m[b].timestamp ensures a == b {
      assert Sent(ds, a, m[a]) && Sent(ds, b, m[b]);
      var d :| d in ds && Accepted(d) && AddressOf(d) == a && d.record == m[a];
      var e :| e in ds && Accepted(e) && AddressOf(e) == b && e.record == m[b];
    }
    forall d <- ds | Accepted(d) ensures m[AddressOf(d)] == d.record {
      assert Sent(ds, AddressOf(d), m[AddressOf(d)]);
      var e :| e in ds && Accepted(e) && AddressOf(e) == AddressOf(d) && e.record == m[AddressOf(d)];
    }
  }

  lemma {:induction false} PrefixProduced(ds: seq<Delivery>, n: nat)
    requires HookProduced(ds) && n <= |ds|
    ensures HookProduced(ds[..n])
  {
    assert forall d <- ds[..n] :: d in ds;
  }

  /** No accepted record is stored behind the range of another under a key that is
      shorter than the prefix of the other. */
  ghost predicate Unobstructed(ds: seq<Delivery>) {
    forall d <- ds, e <- ds :: Accepted(d) && Accepted(e) ==> !Obstructs(AddressOf(e), AddressOf(d))
  }

  lemma {:induction false} WalksSucceed(ds: seq<Delivery>, d: Delivery, n: nat)
    requires Unobstructed(ds) && d in ds && Accepted(d) && n <= |ds|
    ensures !ScanFails(Collected(ds[..n]).Keys, AddressOf(d))
  {
    var m := Collected(ds[..n]);
    CollectedFacts(ds[..n]);
    forall b <- m.Keys ensures !Obstructs(b, AddressOf(d)) {
      assert Sent(ds[..n], b, m[b]);
      var e :| e in ds[..n] && Accepted(e) && AddressOf(e) == b && e.record == m[b];
      assert e in ds;
    }
  }

  /** A replica that no key obstructs ends with the flag on the newest record of
      every key. */
  lemma {:induction false} ReplicaSettles(ds: seq<Delivery>)
    requires HookProduced(ds) && Unobstructed(ds)
    ensures Received(ds) == Flagged(Collected(ds))
  {
    if ds != [] {
      var n := |ds| - 1;
      var d, before := ds[n], ds[..n];
      PrefixProduced(ds, n);
      assert Unobstructed(before) by { assert forall e <- before :: e in ds; }
      ReplicaSettles(before);
      CollectedDistinct(before);
      CollectedDistinct(ds);
      if Accepted(d) {
        var m := Collected(before);
        WalksSucceed(ds, d, n);
        if AddressOf(d) in m {
          CollectedFacts(before);
          assert Sent(before, AddressOf(d), m[AddressOf(d)]);
          var e :| e in before && Accepted(e) && AddressOf(e) == AddressOf(d) && e.record == m[AddressOf(d)];
          assert e in ds && d in ds;
        }
        FlaggedStep(m, AddressOf(d), d.record);
      }
    }
  }

  lemma {:induction false} SameProduced(ds: seq<Delivery>, es: seq<Delivery>)
    requires HookProduced(ds) && forall e <- es :: e in ds
    ensures HookProduced(es)
  {}

  lemma {:induction false} CollectedWithin(ds: seq<Delivery>, es: seq<Delivery>)
    requires HookProduced(es) && forall d <- ds :: d in es
    ensures forall a <- Collected(ds) :: a in Collected(es) && Collected(es)[a] == Collected(ds)[a]
  {
    var m := Collected(ds);
    CollectedFacts(ds);
    CollectedDistinct(es);
    forall a <- m ensures a in Collected(es) && Collected(es)[a] == m[a] {
      assert Sent(ds, a, m[a]);
      var d :| d in ds && Accepted(d) && AddressOf(d) == a && d.record == m[a];
      assert d in es;
    }
  }

  /** The same records, in any order and with any repetition. */
  ghost predicate SameRecords(ds: seq<Delivery>, es: seq<Delivery>) {
    (forall d <- ds :: d in es) && (forall e <- es :: e in ds)
  }

  lemma {:induction false} UnobstructedAgree(ds: seq<Delivery>, es: seq<Delivery>)
    requires HookProduced(ds) && Unobstructed(ds) && SameRecords(ds, es)
    ensures Received(ds) == Received(es)
  {
    SameProduced(ds, es);
    ReplicaSettles(ds);
    ReplicaSettles(es);
    CollectedWithin(ds, es);
    CollectedWithin(es, ds);
    assert Collected(ds) == Collected(es);
  }

  /** What is stored stays. */
  lemma {:induction false} ReceivedStays(ds: seq<Delivery>, n: nat, a: Address)
    requires n <= |ds| && a in Received(ds[..n])
    ensures a in Received(ds)
  {
    if n == |ds| {
      assert ds[..n] == ds;
    } else {
      var before := ds[..|ds| - 1];
      assert before[..n] == ds[..n];
      ReceivedStays(before, n, a);
    }
  }

  /** What is not sent any more does not come. */
  lemma {:induction false} ReceivedNeverCame(ds: seq<Delivery>, n: nat, a: Address)
    requires n <= |ds| && a !in Received(ds[..n]) && forall i :: n <= i < |ds| ==> AddressOf(ds[i]) != a
    ensures a !in Received(ds)
  {
    if n == |ds| {
      assert ds[..n] == ds;
    } else {
      var before := ds[..|ds| - 1];
      assert before[..n] == ds[..n];
      ReceivedNeverCame(before, n, a);
    }
  }

  function Others(ds: seq<Delivery>, d: Delivery): (r: seq<Delivery>)
    ensures forall e :: e in r <==> e in ds && e != d
  {
    if ds == [] then [] else Others(ds[1..], d) + if ds[0] == d then [] else [ds[0]]
  }

  lemma {:induction false} FirstStored(d: Delivery)
    requires Accepted(d)
    ensures Received([d]).Keys == {AddressOf(d)}
  {
    assert [d][..0] == [];
    assert Received([]) == map[];
  }

  /** Behind a record that obstructs it, a record is refused; before it, it is stored. */
  lemma {:induction false} ObstructedLost(d: Delivery, e: Delivery)
    requires Accepted(d) && Accepted(e) && d.record.isLatest && e.record.isLatest &&
             Obstructs(AddressOf(e), AddressOf(d))
    ensures AddressOf(d) !in Received([e, d]) && AddressOf(d) in Received([d])
  {
    var a, b := AddressOf(d), AddressOf(e);
    FirstStored(d);
    FirstStored(e);
    assert [e, d][..1] == [e];
    BeforeTotal(b, b);
    assert b in Received([e]) && ScanFails(Received([e]).Keys, a);
  }

  /** Two orders of records of which one obstructs another. */
  lemma {:induction false} ObstructedDiverge(ds: seq<Delivery>, d: Delivery, e: Delivery)
    returns (es: seq<Delivery>, fs: seq<Delivery>)
    requires HookProduced(ds) && d in ds && e in ds && Accepted(d) && Accepted(e) &&
             Obstructs(AddressOf(e), AddressOf(d))
    ensures SameRecords(es, ds) && SameRecords(fs, ds) && Received(es) != Received(fs)
  {
    var a := AddressOf(d);
    es, fs := [e, d] + Others(ds, d), [d] + ds;
    ObstructedLost(d, e);
    assert es[..2] == [e, d] && fs[..1] == [d];
    forall i | 2 <= i < |es| ensures AddressOf(es[i]) != a {
      assert es[i] in Others(ds, d);
    }
    ReceivedNeverCame(es, 2, a);
    ReceivedStays(fs, 1, a);
    forall x <- ds ensures x in es {
      if x != d { assert x in Others(ds, d); }
    }
  }

  /** Replicas that receive the same hook-produced records agree, whatever the order
      and the repetitions, if and only if no record obstructs another. */
  lemma {:induction false} ReplicasConverge(ds: seq<Delivery>)
    requires HookProduced(ds)
    ensures (forall es, fs :: SameRecords(es, ds) && SameRecords(fs, ds) ==> Received(es) == Received(fs)) <==>
            Unobstructed(ds)
  {
    if Unobstructed(ds) {
      forall es, fs | SameRecords(es, ds) && SameRecords(fs, ds) ensures Received(es) == Received(fs) {
        UnobstructedAgree(ds, es);
        UnobstructedAgree(ds, fs);
      }
    } else {
      var d, e :| d in ds && e in ds && Accepted(d) && Accepted(e) && Obstructs(AddressOf(e), AddressOf(d));
      var es, fs := ObstructedDiverge(ds, d, e);
    }
  }

  const FORTY_AS: Name := "aaaaaaaaaaaaaaaaaaaaaaaaaaaaaaaaaaaaaaaa"

  /** An input: a key of 40 bytes and a later key of one byte, both with ids of 36
      bytes as UUIDs have. In one order both records are stored, in the other only
      the second. */
  lemma {:induction false} LongKeyLost(d: Delivery, e: Delivery)
    requires d.bucket == e.bucket == "b" && d.key == FORTY_AS && e.key == "z"
    requires |d.record.versionID| == |e.record.versionID| == 36 && d.record.isLatest && e.record.isLatest
    ensures Received([d, e]).Keys == {AddressOf(d), AddressOf(e)}
    ensures Received([e, d]).Keys == {AddressOf(e)}
  {
    var a, b := AddressOf(d), AddressOf(e);
    LongKeyObstructed(a, b);
    ObstructedLost(d, e);
    assert [d, e][..1] == [d] && [e, d][..1] == [e];
    FirstStored(d);
    FirstStored(e);
  }

  lemma {:induction false} LongKeyObstructed(a: Address, b: Address)
    requires a.bucket == b.bucket == "b" && a.key == FORTY_AS && b.key == "z" && |b.versionID| == 36
    ensures Obstructs(b, a) && !Obstructs(a, b)
  {
    var p, c := Prefix(a), Composite(b);
    assert |p| == 43 && |c| == 40;
    assert p[2] == a.key[0] && FORTY_AS[0] == 'a';
    assert p[..2] == c[..2] && p[2] == 'a' && c[2] == 'z';
    LessAt(p, c, 2);
    if Less(c, p) {
      LessTransitive(p, c, p);
      LessIrreflexive(p);
    }
  }

  // ---- runs: one latest record, and write once read many ----

  datatype State = State(versions: Table, locks: map<Address, Lock>)

  datatype Op =
    | Local(bucket: Name, key: Name, record: Record)
    | Replicate(bucket: Name, key: Name, record: Record)
    | Delete(address: Address, bypass: bool)
    | WriteLock(address: Address, change: Change, bypass: bool)

  function LockOf(s: State, a: Address): Lock {
    if a in s.locks then s.locks[a] else UNLOCKED
  }

  /** The lock record that an accepted write leaves. */
  function LockAfter(s: State, a: Address, c: Change, bypass: bool, now: int): Option<Lock> {
    if a.bucket == "" || a.key == "" || a.versionID == "" || (a !in s.locks && a !in s.versions) then None
    else if Verdict(LockOf(s, a), Changed(LockOf(s, a), c), bypass, now) == Ok then Some(Changed(LockOf(s, a), c))
    else None
  }

  predicate Deletable(s: State, a: Address, bypass: bool, now: int) {
    && a in s.versions && (s.versions[a].isDeleteMarker || a !in s.locks || !Denies(s.locks[a], now, bypass))
    && !DeletionFails(s.versions, a)
  }

  /** One operation at time `now`, as the methods of the store do it. */
  ghost predicate Step(s: State, op: Op, now: int, s': State) {
    match op
    case Local(b, k, r) =>
      s' == s.(versions := AfterRecord(s.versions, Address(b, k, r.versionID), r.(isLatest := true)))
    case Replicate(b, k, r) =>
      s' == if b == "" || k == "" || r.versionID == "" then s
            else s.(versions := AfterReplicated(s.versions, Address(b, k, r.versionID), r))
    case Delete(a, bypass) =>
      if Deletable(s, a, bypass, now) then Deleted(s.versions, a, s'.versions) && s'.locks == s.locks else s' == s
    case WriteLock(a, c, bypass) =>
      var l := LockAfter(s, a, c, bypass, now);
      s' == if l.Some? then s.(locks := s.locks[a := l.value]) else s
  }

  ghost predicate IsRun(states: seq<State>, ops: seq<Op>, times: seq<int>) {
    && |states| == |ops| + 1 && |times| == |ops|
    && (forall i :: 0 <= i < |ops| ==> Step(states[i], ops[i], times[i], states[i + 1]))
    && (forall i, j :: 0 <= i < j < |ops| ==> times[i] <= times[j])
  }

  /** Replicated records come from hooks: they carry the flag, and a version id
      stands for one record. */
  ghost predicate FromHook(s: State, op: Op) {
    op.Replicate? ==>
      var a := Address(op.bucket, op.key, op.record.versionID);
      op.record.isLatest && (a in s.versions ==> s.versions[a].(isLatest := true) == op.record)
  }

  lemma {:induction false} StepKeepsLatest(s: State, op: Op, now: int, s': State)
    requires OneLatest(s.versions) && Step(s, op, now, s') && FromHook(s, op)
    ensures OneLatest(s'.versions)
  {
    match op
    case Local(b, k, r) => PutKeepsLatest(s.versions, Address(b, k, r.versionID), r.(isLatest := true));
    case Replicate(b, k, r) =>
      if b != "" && k != "" && r.versionID != "" {
        var a := Address(b, k, r.versionID);
        if !Promotes(s.versions, a, r) {
          var c :| c in s.versions && SameKey(a, c);
          assert HasKey(s.versions, a);
        }
        ReplicatedKeepsLatest(s.versions, a, r);
      }
    case Delete(a, bypass) =>
      if Deletable(s, a, bypass, now) {
        DeleteKeepsLatest(s.versions, a, s'.versions);
      }
    case WriteLock(_, _, _) =>
  }

  /** Every run of local records, delete markers, hook-produced replicated records
      and deletions keeps exactly one latest record per key that has any, failed
      walks included. */
  lemma {:induction false} RunKeepsLatest(states: seq<State>, ops: seq<Op>, times: seq<int>, i: nat)
    requires IsRun(states, ops, times) && i < |states| && OneLatest(states[0].versions)
    requires forall j :: 0 <= j < |ops| ==> FromHook(states[j], ops[j])
    ensures OneLatest(states[i].versions)
  {
    if i > 0 {
      RunKeepsLatest(states, ops, times, i - 1);
      StepKeepsLatest(states[i - 1], ops[i - 1], times[i - 1], states[i]);
    }
  }

  // ---- write once read many ----

  predicate SameContent(r: Record, d: Record) {
    r.hash == d.hash && r.size == d.size && r.isDeleteMarker == d.isDeleteMarker
  }

  /** The version at `a` is the data version `d`. */
  predicate Stored(s: State, a: Address, d: Record) {
    a in s.versions && SameContent(s.versions[a], d) && !d.isDeleteMarker
  }

  /** Moreover, it is under compliance retention until `deadline`. */
  ghost predicate Retained(s: State, a: Address, d: Record, deadline: int) {
    Stored(s, a, d) && a in s.locks && Holds(s.locks[a], deadline)
  }

  /** A record for the address with other content is stored. */
  predicate Overwrites(s: State, op: Op, a: Address, d: Record) {
    match op
    case Local(b, k, r) => Address(b, k, r.versionID) == a && !SameContent(r, d) && !ScanFails(s.versions.Keys, a)
    case Replicate(b, k, r) =>
      && Address(b, k, r.versionID) == a && !SameContent(r, d) && b != "" && k != "" && r.versionID != ""
      && !(r.isLatest && ScanFails(s.versions.Keys, a))
    case _ => false
  }

  /** The operations that break retention: a stored record for the address with
      other content, and an accepted lock write without a mode. */
  predicate Breaks(s: State, op: Op, now: int, a: Address, d: Record) {
    || Overwrites(s, op, a, d)
    || (op.WriteLock? && op.address == a && LockAfter(s, a, op.change, op.bypass, now).Some? &&
        Changed(LockOf(s, a), op.change).mode == "")
  }

  lemma {:induction false} StepRetains(s: State, op: Op, now: int, s': State, a: Address, d: Record, deadline: int)
    requires Retained(s, a, d, deadline) && Step(s, op, now, s') && now < deadline
    ensures Retained(s', a, d, deadline) <==> !Breaks(s, op, now, a, d)
  {
    assert COMPLIANCE != "" && COMPLIANCE != GOVERNANCE;
    match op
    case WriteLock(b, c, bypass) =>
      if b == a && LockAfter(s, a, c, bypass, now).Some? {
        ComplianceKept(s.locks[a], Changed(s.locks[a], c), bypass, now);
      }
    case Delete(b, bypass) =>
      assert !Deletable(s, a, bypass, now);
    case _ =>
  }

  /** Once compliance retention until `deadline` is in force on a data version, every
      run before the deadline keeps the version, its content and its retention,
      bypass or not, if and only if none of its operations is one of those. */
  lemma {:induction false} WriteOnceReadMany(states: seq<State>, ops: seq<Op>, times: seq<int>, a: Address, d: Record,
                                             deadline: int, n: nat)
    requires IsRun(states, ops, times) && n < |states| && Retained(states[0], a, d, deadline)
    requires forall j :: 0 <= j < n ==> times[j] < deadline
    ensures (forall j :: 0 <= j <= n ==> Retained(states[j], a, d, deadline)) <==>
            (forall j :: 0 <= j < n ==> !Breaks(states[j], ops[j], times[j], a, d))
  {
    if n > 0 {
      WriteOnceReadMany(states, ops, times, a, d, deadline, n - 1);
      if Retained(states[n - 1], a, d, deadline) {
        StepRetains(states[n - 1], ops[n - 1], times[n - 1], states[n], a, d, deadline);
      }
    }
  }

  /** The version is under retention of either mode until `deadline`. */
  ghost predicate Guarded(s: State, a: Address, d: Record, deadline: int) {
    Stored(s, a, d) && a in s.locks && Guards(s.locks[a], deadline)
  }

  predicate Bypasses(op: Op) {
    (op.Delete? || op.WriteLock?) && op.bypass
  }

  lemma {:induction false} StepGuards(s: State, op: Op, now: int, s': State, a: Address, d: Record, deadline: int)
    requires Guarded(s, a, d, deadline) && Step(s, op, now, s') && now < deadline && !Bypasses(op)
    ensures Guarded(s', a, d, deadline) <==> !Breaks(s, op, now, a, d)
  {
    assert COMPLIANCE != "" && GOVERNANCE != "";
    match op
    case WriteLock(b, c, bypass) =>
      if b == a && LockAfter(s, a, c, bypass, now).Some? {
        RetentionKept(s.locks[a], Changed(s.locks[a], c), now);
      }
    case Delete(b, bypass) =>
      DeniesExactly(s.locks[a], now, false);
      assert !Deletable(s, a, false, now);
    case _ =>
  }

  /** As long as nobody uses the bypass, governance retention keeps a version under the
      very same condition. */
  lemma {:induction false} GovernanceWithoutBypass(states: seq<State>, ops: seq<Op>, times: seq<int>, a: Address,
                                                   d: Record, deadline: int, n: nat)
    requires IsRun(states, ops, times) && n < |states| && Guarded(states[0], a, d, deadline)
    requires forall j :: 0 <= j < n ==> times[j] < deadline && !Bypasses(ops[j])
    ensures (forall j :: 0 <= j <= n ==> Guarded(states[j], a, d, deadline)) <==>
            (forall j :: 0 <= j < n ==> !Breaks(states[j], ops[j], times[j], a, d))
  {
    if n > 0 {
      GovernanceWithoutBypass(states, ops, times, a, d, deadline, n - 1);
      if Guarded(states[n - 1], a, d, deadline) {
        StepGuards(states[n - 1], ops[n - 1], times[n - 1], states[n], a, d, deadline);
      }
    }
  }

  // ---- legal hold ----

  /** The data version `d` is at `a` under a legal hold. */
  ghost predicate Held(s: State, a: Address, d: Record) {
    Stored(s, a, d) && a in s.locks && s.locks[a].legalHoldOn
  }

  /** A lock write that clears the hold is accepted. */
  predicate Clears(s: State, op: Op, now: int, a: Address) {
    op.WriteLock? && op.address == a && LockAfter(s, a, op.change, op.bypass, now).Some? &&
      match op.change
      case Whole(l) => !l.legalHoldOn
      case Retention(_, _) => false
      case LegalHold(on) => !on
  }

  lemma {:induction false} StepHolds(s: State, op: Op, now: int, s': State, a: Address, d: Record)
    requires Held(s, a, d) && Step(s, op, now, s')
    ensures Held(s', a, d) <==> !Overwrites(s, op, a, d) && !Clears(s, op, now, a)
  {
    if op.Delete? {
      DeniesExactly(s.locks[a], now, op.bypass);
      assert !Deletable(s, a, op.bypass, now);
    }
  }

  /** A version under legal hold stays, with its content and its hold, at any time and
      whoever deletes with whatever bypass, if and only if no accepted lock write clears
      the hold and no record with other content is stored over it. */
  lemma {:induction false} LegalHoldKeeps(states: seq<State>, ops: seq<Op>, times: seq<int>, a: Address, d: Record,
                                          n: nat)
    requires IsRun(states, ops, times) && n < |states| && Held(states[0], a, d)
    ensures (forall j :: 0 <= j <= n ==> Held(states[j], a, d)) <==>
            (forall j :: 0 <= j < n ==>
               !Overwrites(states[j], ops[j], a, d) && !Clears(states[j], ops[j], times[j], a))
  {
    if n > 0 {
      LegalHoldKeeps(states, ops, times, a, d, n - 1);
      if Held(states[n - 1], a, d) {
        StepHolds(states[n - 1], ops[n - 1], times[n - 1], states[n], a, d);
      }
    }
  }

  // ---- how retention is broken ----

  lemma {:induction false} NewestOf(t: Table, keys: set<Address>) returns (n: Address)
    requires keys != {} && keys <= t.Keys
    ensures n in keys && forall b <- keys :: !Newer(t[b], t[n])
  {
    var b :| b in keys;
    LessIrreflexive(t[b].versionID);
    if keys == {b} {
      n := b;
    } else {
      n := NewestOf(t, keys - {b});
      if Newer(t[b], t[n]) {
        Replaces(t, Some(n), b);
        n := b;
      }
    }
  }

  /** A deletion that the lock and the walk let through can be carried out. */
  lemma {:induction false} CanDelete(t: Table, a: Address) returns (t': Table)
    requires Filed(t) && a in t
    ensures Deleted(t, a, t') && a !in t'
  {
    var u := t - {a};
    t' := u;
    if t[a].isLatest && HasKey(u, a) {
      var c :| c in u && SameKey(a, c);
      var n := NewestOf(u, set b <- u | SameKey(a, b));
      UnbeatenIsNewest(u, n);
      t' := u[n := u[n].(isLatest := true)];
      assert n in u && SameKey(a, n);
    }
  }

  /** The bypass: whoever presents it deletes a version under governance retention. */
  lemma {:induction false} BypassLoses(s: State, a: Address, d: Record, now: int) returns (s': State)
    requires Stored(s, a, d) && Filed(s.versions) && !DeletionFails(s.versions, a)
    requires a in s.locks && s.locks[a].mode == GOVERNANCE && !s.locks[a].legalHoldOn && now < s.locks[a].retainUntil
    ensures Deletable(s, a, true, now) && !Deletable(s, a, false, now)
    ensures Step(s, Delete(a, true), now, s') && a !in s'.versions
  {
    DeniesExactly(s.locks[a], now, true);
    DeniesExactly(s.locks[a], now, false);
    var t := CanDelete(s.versions, a);
    s' := s.(versions := t);
  }

  /** Deleting `a` at `now` succeeds and leads to `s'`. */
  ghost predicate Lost(s: State, a: Address, now: int, s': State) {
    Deletable(s, a, false, now) && Step(s, Delete(a, false), now, s') && a !in s'.versions
  }

  ghost predicate Named(a: Address) {
    a.bucket != "" && a.key != "" && a.versionID != ""
  }

  /** A lock write with an empty mode and a nonzero deadline is accepted, and then
      the version can be deleted before the deadline. */
  lemma {:induction false} EmptyModeLoses(s: State, a: Address, d: Record, deadline: int, now: int)
    returns (s1: State, s2: State)
    requires Retained(s, a, d, deadline) && now < deadline && Named(a) && Filed(s.versions) &&
             !DeletionFails(s.versions, a)
    ensures Step(s, WriteLock(a, Whole(Lock("", 1, false)), false), now, s1) && Lost(s1, a, now, s2)
  {
    assert "" != COMPLIANCE && "" != GOVERNANCE && COMPLIANCE != GOVERNANCE;
    s1 := s.(locks := s.locks[a := Lock("", 1, false)]);
    var t := CanDelete(s.versions, a);
    s2 := s1.(versions := t);
  }

  /** A replicated delete marker with the id of the version is stored over it, and a
      marker can be deleted whatever its lock. */
  lemma {:induction false} MarkerLoses(s: State, a: Address, d: Record, deadline: int, now: int, r: Record)
    returns (s1: State, s2: State)
    requires Retained(s, a, d, deadline) && now < deadline && Named(a) && Filed(s.versions)
    requires r.versionID == a.versionID && r.isDeleteMarker && !r.isLatest
    ensures Step(s, Replicate(a.bucket, a.key, r), now, s1) && Lost(s1, a, now, s2)
  {
    s1 := s.(versions := s.versions[a := r]);
    s2 := s1.(versions := s1.versions - {a});
  }

  /** A replicated record with the id of the version replaces its content, before the
      deadline and under the unchanged lock. */
  lemma {:induction false} RecordReplaces(s: State, a: Address, d: Record, deadline: int, now: int, r: Record)
    returns (s1: State)
    requires Retained(s, a, d, deadline) && now < deadline && Named(a) && r.versionID == a.versionID
    requires !SameContent(r, d) && !(r.isLatest && ScanFails(s.versions.Keys, a))
    ensures Step(s, Replicate(a.bucket, a.key, r), now, s1) && s1.locks == s.locks
    ensures a in s1.versions && SameContent(s1.versions[a], r) && !Retained(s1, a, d, deadline)
  {
    assert Address(a.bucket, a.key, r.versionID) == a;
    s1 := s.(versions := AfterReplicated(s.versions, a, r));
  }
}
