/**
 The hash-chained audit log of src/storage/storage.go.

 The bucket is a sequence of rows with strictly ascending keys, the order in
 which a cursor walks it. SHA-256 over the JSON of an entry's fields is an
 injective table that never yields the empty string.
 */
module AuditLog {

  /** The hashed part of an entry. */
  datatype Fields = Fields(timestamp: int, tenantID: string, identity: string, operation: string,
                           resource: string, outcome: string, requestID: string, prevHash: string)

  datatype Entry = Entry(fields: Fields, entryHash: string)

  /** A stored value: an entry, or bytes that are not the JSON of one. */
  datatype Value = Stored(entry: Entry) | Garbled

  datatype Row = Row(key: nat, value: Value)

  type Digest = imap<Fields, string>

  ghost predicate IsDigest(d: Digest) {
    && (forall f :: f in d && d[f] != "")
    && (forall f, g :: d[f] == d[g] ==> f == g)
  }

  ghost predicate Ascending(rows: seq<Row>) {
    forall i, j :: 0 <= i < j < |rows| ==> rows[i].key < rows[j].key
  }

  /** The eight-byte key of a timestamp: its 64 bits read as unsigned. */
  function KeyOf(timestamp: int): nat {
    timestamp % 0x1_0000_0000_0000_0000
  }

  /** The hash before row `i`. */
  function Before(rows: seq<Row>, i: nat): string
    requires i <= |rows|
  {
    if i == 0 || rows[i - 1].value.Garbled? then "" else rows[i - 1].value.entry.entryHash
  }

  ghost predicate Linked(rows: seq<Row>, d: Digest, i: nat)
    requires i < |rows|
  {
    && rows[i].value.Stored? && rows[i].value.entry.fields in d
    && rows[i].value.entry.fields.prevHash == Before(rows, i)
    && rows[i].value.entry.entryHash == d[rows[i].value.entry.fields]
  }

  ghost predicate Accepted(rows: seq<Row>, d: Digest) {
    forall i :: 0 <= i < |rows| ==> Linked(rows, d, i)
  }

  /** Where a key belongs: behind all smaller ones. */
  function Position(rows: seq<Row>, key: nat): (p: nat)
    ensures p <= |rows| && (forall i :: 0 <= i < p ==> rows[i].key < key) && (p < |rows| ==> rows[p].key >= key)
    decreases |rows|
  {
    if rows == [] then 0
    else if rows[0].key >= key then 0
    else
      assert forall i :: 1 <= i < |rows| ==> rows[i] == rows[1..][i - 1];
      1 + Position(rows[1..], key)
  }

  /** The bucket with `key` set to `v`. */
  function WithRow(rows: seq<Row>, key: nat, v: Value): seq<Row> {
    var p := Position(rows, key);
    rows[..p] + [Row(key, v)] + if p < |rows| && rows[p].key == key then rows[p + 1..] else rows[p..]
  }

  /** What a caller of WriteAuditLog fills in. */
  datatype Report = Report(tenantID: string, identity: string, operation: string, resource: string, outcome: string,
                           requestID: string)

  /** The entry written at time `now` after `rows`. */
  ghost function NewEntry(rows: seq<Row>, d: Digest, r: Report, now: int): Entry
    requires IsDigest(d)
  {
    var f := Fields(now, r.tenantID, r.identity, r.operation, r.resource, r.outcome, r.requestID, Before(rows, |rows|));
    Entry(f, d[f])
  }

  ghost function Written(rows: seq<Row>, d: Digest, r: Report, now: int): seq<Row>
    requires IsDigest(d)
  {
    WithRow(rows, KeyOf(now), Stored(NewEntry(rows, d, r, now)))
  }

  /** The row holds what was reported, and when. */
  predicate Carries(row: Row, r: Report, now: int) {
    && row.value.Stored?
    && var f := row.value.entry.fields;
       && f.timestamp == now && f.tenantID == r.tenantID && f.identity == r.identity && f.operation == r.operation
       && f.resource == r.resource && f.outcome == r.outcome && f.requestID == r.requestID
  }

  class Log {
    var rows: seq<Row>
    ghost const digest: Digest
    const hashOf: Fields -> string

    ghost predicate Valid()
      reads this
    {
      IsDigest(digest) && Ascending(rows) && forall f :: digest[f] == hashOf(f)
    }

    constructor (hashOf: Fields -> string)
      requires IsDigest(imap f :: hashOf(f))
      ensures Valid() && rows == [] && this.hashOf == hashOf
    {
      this.rows := [];
      this.hashOf := hashOf;
      this.digest := imap f :: hashOf(f);
    }

    method WriteAuditLog(r: Report, now: int) returns (entry: Entry)
      requires Valid()
      modifies this`rows
      ensures Valid() && entry == NewEntry(old(rows), digest, r, now) && rows == Written(old(rows), digest, r, now)
      ensures Carries(Row(KeyOf(now), Stored(entry)), r, now) && Row(KeyOf(now), Stored(entry)) in rows
    {
      var prevHash := "";
      if |rows| > 0 && rows[|rows| - 1].value.Stored? {
        prevHash := rows[|rows| - 1].value.entry.entryHash;
      }
      var f := Fields(now, r.tenantID, r.identity, r.operation, r.resource, r.outcome, r.requestID, prevHash);
      entry := Entry(f, hashOf(f));
      WithRowAscends(rows, KeyOf(now), Stored(entry));
      rows := WithRow(rows, KeyOf(now), Stored(entry));
    }

    /** Verification accepts exactly the logs in which every row is linked. */
    method VerifyAuditLog() returns (ok: bool)
      requires Valid()
      ensures ok <==> Accepted(rows, digest)
    {
      var prevHash := "";
      for i := 0 to |rows|
        invariant prevHash == Before(rows, i)
        invariant forall j :: 0 <= j < i ==> Linked(rows, digest, j)
      {
        var v := rows[i].value;
        if v.Garbled? || v.entry.fields.prevHash != prevHash || v.entry.entryHash != hashOf(v.entry.fields) {
          assert !Linked(rows, digest, i);
          return false;
        }
        prevHash := v.entry.entryHash;
      }
      ok := true;
    }
  }

  lemma {:induction false} WithRowAscends(rows: seq<Row>, key: nat, v: Value)
    requires Ascending(rows)
    ensures Ascending(WithRow(rows, key, v))
  {}

  /** In an accepted log no hash repeats. */
  lemma {:induction false} HashesDiffer(rows: seq<Row>, d: Digest, i: nat, j: nat)
    requires IsDigest(d) && Accepted(rows, d) && i < j <= |rows|
    ensures Before(rows, i) != Before(rows, j)
  {
    assert Linked(rows, d, j - 1);
    if i > 0 {
      assert Linked(rows, d, i - 1);
      HashesDiffer(rows, d, i - 1, j - 1);
    }
  }

  /** An entry written behind an accepted log keeps it accepted exactly when its
      key comes after all keys there: a repeated or earlier timestamp breaks it. */
  lemma {:induction false} WriteAccepted(rows: seq<Row>, d: Digest, r: Report, now: int)
    requires IsDigest(d) && Ascending(rows) && Accepted(rows, d)
    ensures Accepted(Written(rows, d, r, now), d) <==> forall row <- rows :: row.key < KeyOf(now)
  {
    var p, n := Position(rows, KeyOf(now)), |rows|;
    var w := Written(rows, d, r, now);
    if p == n {
      assert w == rows + [Row(KeyOf(now), Stored(NewEntry(rows, d, r, now)))];
      forall i | 0 <= i < |w| ensures Linked(w, d, i) {
        assert Before(w, i) == Before(rows, i);
        if i < n { assert Linked(rows, d, i); }
      }
    } else {
      assert rows[p] in rows;
      assert Before(w, p) == Before(rows, p);
      HashesDiffer(rows, d, p, n);
      assert !Linked(w, d, p);
    }
  }

  ghost predicate Later(times: seq<int>) {
    forall i, j :: 0 <= i < j < |times| ==> KeyOf(times[i]) < KeyOf(times[j])
  }

  /** Times from 1970 on are their own keys, and earlier ones come after them. */
  lemma {:induction false} KeyIsTime(timestamp: int)
    ensures 0 <= timestamp < 0x8000_0000_0000_0000 ==> KeyOf(timestamp) == timestamp
    ensures -0x8000_0000_0000_0000 <= timestamp < 0 ==> KeyOf(timestamp) == timestamp + 0x1_0000_0000_0000_0000
  {}

  /** Clocks after 1970 that go forward are later in this sense. */
  lemma {:induction false} ForwardIsLater(times: seq<int>)
    requires forall i :: 0 <= i < |times| ==> 0 <= times[i] < 0x8000_0000_0000_0000
    ensures Later(times) <==> forall i, j :: 0 <= i < j < |times| ==> times[i] < times[j]
  {
    forall i, j | 0 <= i < j < |times| ensures KeyOf(times[i]) < KeyOf(times[j]) <==> times[i] < times[j] {
      KeyIsTime(times[i]);
      KeyIsTime(times[j]);
    }
    if Later(times) {
      forall i, j | 0 <= i < j < |times| ensures times[i] < times[j] {
        assert KeyOf(times[i]) < KeyOf(times[j]);
      }
    }
  }

  /** The log after the first `k` of a run of writes. */
  ghost function After(d: Digest, reports: seq<Report>, times: seq<int>, k: nat): seq<Row>
    requires IsDigest(d) && k <= |reports| == |times|
  {
    if k == 0 then [] else Written(After(d, reports, times, k - 1), d, reports[k - 1], times[k - 1])
  }

  lemma {:induction false} LastRow(rows: seq<Row>, key: nat, v: Value)
    requires forall i :: 0 <= i < |rows| ==> rows[i].key < key
    ensures WithRow(rows, key, v) == rows + [Row(key, v)]
  {
    assert Position(rows, key) == |rows|;
  }

  lemma {:induction false} LaterWrite(rows: seq<Row>, d: Digest, r: Report, now: int)
    requires IsDigest(d) && Ascending(rows) && Accepted(rows, d) &&
             forall i :: 0 <= i < |rows| ==> rows[i].key < KeyOf(now)
    ensures var w := Written(rows, d, r, now);
      && Accepted(w, d) && Ascending(w) && |w| == |rows| + 1 && w[..|rows|] == rows
      && w[|rows|].key == KeyOf(now) && Carries(w[|rows|], r, now)
  {
    LastRow(rows, KeyOf(now), Stored(NewEntry(rows, d, r, now)));
    WriteAccepted(rows, d, r, now);
  }

  ghost predicate KeysAre(rows: seq<Row>, times: seq<int>) {
    |rows| <= |times| && forall j :: 0 <= j < |rows| ==> rows[j].key == KeyOf(times[j])
  }

  /** Row `i` holds report `i` and its time. */
  ghost predicate AllCarried(rows: seq<Row>, reports: seq<Report>, times: seq<int>) {
    |rows| <= |reports| == |times| && forall i :: 0 <= i < |rows| ==> Carries(rows[i], reports[i], times[i])
  }

  /** Every run of writes at strictly increasing times leaves an accepted log in which
      row `i` holds report `i` and its time. */
  lemma {:induction false} RunAccepted(d: Digest, reports: seq<Report>, times: seq<int>, k: nat)
    requires IsDigest(d) && k <= |reports| == |times| && Later(times)
    ensures var rows := After(d, reports, times, k);
      && Ascending(rows) && Accepted(rows, d) && |rows| == k && KeysAre(rows, times)
      && AllCarried(rows, reports, times)
  {
    if k > 0 {
      RunAccepted(d, reports, times, k - 1);
      var rows, now := After(d, reports, times, k - 1), times[k - 1];
      EarlierKeys(rows, times);
      LaterWrite(rows, d, reports[k - 1], now);
      var w := Written(rows, d, reports[k - 1], now);
      NextKey(rows, w, times);
      NextCarried(rows, w, reports, times);
    }
  }

  lemma {:induction false} NextCarried(rows: seq<Row>, w: seq<Row>, reports: seq<Report>, times: seq<int>)
    requires AllCarried(rows, reports, times) && |rows| < |reports| == |times|
    requires |w| == |rows| + 1 && w[..|rows|] == rows && Carries(w[|rows|], reports[|rows|], times[|rows|])
    ensures AllCarried(w, reports, times)
  {
    forall i | 0 <= i < |w| ensures Carries(w[i], reports[i], times[i]) {
      if i < |rows| { assert w[i] == w[..|rows|][i] == rows[i]; }
    }
  }

  lemma {:induction false} EarlierKeys(rows: seq<Row>, times: seq<int>)
    requires Later(times) && KeysAre(rows, times) && |rows| < |times|
    ensures forall i :: 0 <= i < |rows| ==> rows[i].key < KeyOf(times[|rows|])
  {
    forall i | 0 <= i < |rows| ensures rows[i].key < KeyOf(times[|rows|]) {
      assert KeyOf(times[i]) < KeyOf(times[|rows|]);
    }
  }

  lemma {:induction false} NextKey(rows: seq<Row>, w: seq<Row>, times: seq<int>)
    requires KeysAre(rows, times) && |rows| < |times| && |w| == |rows| + 1 && w[..|rows|] == rows &&
             w[|rows|].key == KeyOf(times[|rows|])
    ensures KeysAre(w, times)
  {
    forall j | 0 <= j < |w| ensures w[j].key == KeyOf(times[j]) {
      if j < |rows| { assert w[j] == w[..|rows|][j] == rows[j]; }
    }
  }

  /** Two accepted logs that end in the same hash hold the same entries: no edit,
      removal or insertion before the last entry goes unnoticed. */
  lemma {:induction false} SameEndSameLog(a: seq<Row>, b: seq<Row>, d: Digest, m: nat, n: nat)
    requires IsDigest(d) && Accepted(a, d) && Accepted(b, d) && m <= |a| && n <= |b|
    requires Before(a, m) == Before(b, n)
    ensures m == n && forall i :: 0 <= i < m ==> a[i].value == b[i].value
  {
    if m > 0 {
      assert Linked(a, d, m - 1);
    }
    if n > 0 {
      assert Linked(b, d, n - 1);
    }
    if m > 0 && n > 0 {
      SameEndSameLog(a, b, d, m - 1, n - 1);
    }
  }
}
