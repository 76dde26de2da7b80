module VersionKeys {

  // The composite keys of src/storage/versioning.go in byte order, and the cursor loop
  // that walks the records of one object: it seeks the prefix of the object and goes on
  // while the key at hand begins with it. The comparison slices the key to the length
  // of the prefix first, so a shorter key behind the range makes the slice panic, and
  // the transaction is rolled back.

  import opened Strings

  datatype Option<+T> = None | Some(value: T)

  /** Bucket names and object keys have no NUL byte, which separates them. */
  type Name = s: string | '\0' !in s

  datatype Address = Address(bucket: Name, key: Name, versionID: string)

  predicate SameKey(a: Address, b: Address) {
    a.bucket == b.bucket && a.key == b.key
  }

  function Prefix(a: Address): string {
    a.bucket + ("\0" + (a.key + "\0"))
  }

  function Composite(a: Address): string {
    a.bucket + ("\0" + (a.key + ("\0" + a.versionID)))
  }

  lemma {:induction false} FirstNul(x: Name, s: string)
    ensures (x + ("\0" + s))[|x|] == '\0'
    ensures forall i :: 0 <= i < |x| ==> (x + ("\0" + s))[i] != '\0'
  {
    forall i | 0 <= i < |x| ensures (x + ("\0" + s))[i] != '\0' {
      assert x[i] in x;
    }
  }

  /** A name ends at its separator, whatever follows. */
  lemma {:induction false} NameEnds(x: Name, y: Name, s: string, t: string)
    requires x + ("\0" + s) <= y + ("\0" + t)
    ensures x == y && s <= t
  {
    var u, v := x + ("\0" + s), y + ("\0" + t);
    assert forall i :: 0 <= i < |u| ==> u[i] == v[i];
    FirstNul(x, s);
    FirstNul(y, t);
    assert |x| == |y|;
    forall i | 0 <= i < |x| ensures x[i] == y[i] {
      assert u[i] == x[i] && v[i] == y[i];
    }
    assert x == y;
    forall i | 0 <= i < |s| ensures s[i] == t[i] {
      assert u[|x| + 1 + i] == s[i] && v[|x| + 1 + i] == t[i];
    }
  }

  /** The keys that begin with the prefix are those of the object's versions. */
  lemma {:induction false} RangeIsKey(a: Address, b: Address)
    ensures Prefix(a) <= Composite(b) <==> SameKey(a, b)
  {
    if SameKey(a, b) {
      assert Composite(b) == Prefix(a) + b.versionID;
    }
    if Prefix(a) <= Composite(b) {
      NameEnds(a.bucket, b.bucket, a.key + "\0", b.key + ("\0" + b.versionID));
      assert a.key + "\0" == a.key + ("\0" + "");
      NameEnds(a.key, b.key, "", b.versionID);
    }
  }

  /** Different versions have different composite keys. */
  lemma {:induction false} CompositeInjective(a: Address, b: Address)
    requires Composite(a) == Composite(b)
    ensures a == b
  {
    NameEnds(a.bucket, b.bucket, a.key + ("\0" + a.versionID), b.key + ("\0" + b.versionID));
    NameEnds(a.key, b.key, a.versionID, b.versionID);
    assert |a.versionID| == |b.versionID|;
  }

  /** `b` is stored before `c`. */
  predicate Before(b: Address, c: Address) {
    Less(Composite(b), Composite(c))
  }

  lemma {:induction false} BeforeTotal(b: Address, c: Address)
    ensures b == c || Before(b, c) || Before(c, b)
    ensures !(Before(b, c) && Before(c, b)) && !Before(b, b)
  {
    LessTotal(Composite(b), Composite(c));
    if Composite(b) == Composite(c) {
      CompositeInjective(b, c);
    }
    LessIrreflexive(Composite(b));
    if Before(b, c) && Before(c, b) {
      LessTransitive(Composite(b), Composite(c), Composite(b));
    }
  }

  /** A seek to the prefix of `a` does not skip `b`. */
  predicate Reached(a: Address, b: Address) {
    !Less(Composite(b), Prefix(a))
  }

  /** `b` sorts behind the range of `a`. */
  predicate Behind(a: Address, b: Address) {
    Reached(a, b) && !SameKey(a, b)
  }

  /** `b` behind the range of `a` is too short to be compared with its prefix. */
  predicate Obstructs(b: Address, a: Address) {
    Behind(a, b) && |Composite(b)| < |Prefix(a)|
  }

  /** The walk over the versions of `a` ends in a panic: the first key behind its
      range is shorter than the prefix. */
  predicate ScanFails(keys: set<Address>, a: Address) {
    exists b <- keys :: Obstructs(b, a) && forall c <- keys :: Behind(a, c) ==> !Before(c, b)
  }

  // ---- the cursor ----

  ghost predicate IsSeek(keys: set<Address>, a: Address, k: Option<Address>) {
    && (k.None? ==> forall c <- keys :: !Reached(a, c))
    && (k.Some? ==> k.value in keys && Reached(a, k.value) && forall c <- keys :: Reached(a, c) ==> !Before(c, k.value))
  }

  ghost predicate IsNext(keys: set<Address>, b: Address, k: Option<Address>) {
    && (k.None? ==> forall c <- keys :: !Before(b, c))
    && (k.Some? ==> k.value in keys && Before(b, k.value) && forall c <- keys :: Before(b, c) ==> !Before(c, k.value))
  }

  /** The first of some keys. */
  method First(keys: set<Address>) returns (k: Option<Address>)
    ensures k.None? ==> keys == {}
    ensures k.Some? ==> k.value in keys && forall c <- keys :: !Before(c, k.value)
  {
    k := None;
    var todo := keys;
    while todo != {}
      invariant todo <= keys && (k.None? ==> todo == keys)
      invariant k.Some? ==> k.value in keys && forall c <- keys - todo :: !Before(c, k.value)
    {
      var b :| b in todo;
      if k.None? || Before(b, k.value) {
        Lower(keys, k, b);
        k := Some(b);
      }
      todo := todo - {b};
    }
  }

  lemma {:induction false} Lower(keys: set<Address>, k: Option<Address>, b: Address)
    requires k.Some? ==> Before(b, k.value)
    ensures !Before(b, b) && (k.Some? ==> forall c <- keys :: !Before(c, k.value) ==> !Before(c, b))
  {
    BeforeTotal(b, b);
    if k.Some? {
      forall c <- keys | Before(c, b) ensures Before(c, k.value) {
        LessTransitive(Composite(c), Composite(b), Composite(k.value));
      }
    }
  }

  method Seek(keys: set<Address>, a: Address) returns (k: Option<Address>)
    ensures IsSeek(keys, a, k)
  {
    var ahead := set c <- keys | Reached(a, c);
    k := First(ahead);
    assert forall c <- keys :: Reached(a, c) ==> c in ahead;
  }

  method Next(keys: set<Address>, b: Address) returns (k: Option<Address>)
    ensures IsNext(keys, b, k)
  {
    var ahead := set c <- keys | Before(b, c);
    k := First(ahead);
    assert forall c <- keys :: Before(b, c) ==> c in ahead;
  }

  // ---- the walk over one object ----

  /** The walk has left `c` behind when it stands at `k`. */
  predicate Passed(k: Option<Address>, c: Address) {
    k.None? || Before(c, k.value)
  }

  /** The walk stands at `k` and has passed no key behind the range of `a`. */
  ghost predicate Walking(keys: set<Address>, a: Address, k: Option<Address>) {
    && (k.Some? ==> k.value in keys && Reached(a, k.value))
    && forall c <- keys :: Behind(a, c) ==> !Passed(k, c)
  }

  /** What the walk can still reach. */
  ghost function Ahead(keys: set<Address>, k: Option<Address>): set<Address> {
    set c <- keys | !Passed(k, c)
  }

  lemma {:induction false} InRange(a: Address, b: Address)
    requires SameKey(a, b)
    ensures Reached(a, b)
  {
    RangeIsKey(a, b);
    PrefixFirst(Prefix(a), Composite(b));
  }

  lemma {:induction false} WalkStarts(keys: set<Address>, a: Address, k: Option<Address>)
    requires IsSeek(keys, a, k)
    ensures Walking(keys, a, k) && forall c <- keys :: SameKey(a, c) ==> !Passed(k, c)
  {
    forall c <- keys | SameKey(a, c) ensures !Passed(k, c) {
      InRange(a, c);
    }
  }

  lemma {:induction false} WalkGoesOn(keys: set<Address>, a: Address, b: Address, k: Option<Address>)
    requires Walking(keys, a, Some(b)) && SameKey(a, b) && IsNext(keys, b, k)
    ensures Walking(keys, a, k)
    ensures forall c <- keys :: Passed(k, c) <==> Passed(Some(b), c) || c == b
    ensures Ahead(keys, k) < Ahead(keys, Some(b))
  {
    BeforeTotal(b, b);
    forall c <- keys ensures Passed(k, c) <==> Passed(Some(b), c) || c == b {
      BeforeTotal(b, c);
      if k.Some? && Before(c, b) {
        LessTransitive(Composite(c), Composite(b), Composite(k.value));
      }
    }
    if k.Some? && Less(Composite(k.value), Prefix(a)) {
      LessTransitive(Composite(b), Composite(k.value), Prefix(a));
    }
    assert b in Ahead(keys, Some(b)) && b !in Ahead(keys, k);
  }

  /** A walk that stops at a key behind the range has seen the whole range. */
  lemma {:induction false} WalkStops(keys: set<Address>, a: Address, b: Address)
    requires Walking(keys, a, Some(b)) && !SameKey(a, b)
    ensures forall c <- keys :: SameKey(a, c) ==> Passed(Some(b), c)
    ensures ScanFails(keys, a) <==> |Composite(b)| < |Prefix(a)|
  {
    forall c <- keys | SameKey(a, c) ensures Before(c, b) {
      if !Before(c, b) {
        RangeIsKey(a, b);
        RangeIsKey(a, c);
        PrefixConvex(Prefix(a), Composite(b), Composite(c));
      }
    }
    if ScanFails(keys, a) {
      var o :| o in keys && Obstructs(o, a) && forall c <- keys :: Behind(a, c) ==> !Before(c, o);
      BeforeTotal(o, b);
    }
  }

  /** What the loop sees of the key of `b`: slicing it panics, it begins with the
      prefix, or it does not. */
  datatype Sight = Panics | Begins | Differs

  function Look(a: Address, b: Address): Sight {
    if |Composite(b)| < |Prefix(a)| then Panics
    else if Composite(b)[..|Prefix(a)|] == Prefix(a) then Begins
    else Differs
  }

  lemma {:induction false} LookTells(keys: set<Address>, a: Address, b: Address)
    requires Walking(keys, a, Some(b))
    ensures Look(a, b) == Begins <==> SameKey(a, b)
    ensures Look(a, b) == Panics ==> ScanFails(keys, a)
    ensures Look(a, b) == Differs ==> !ScanFails(keys, a) && forall c <- keys :: SameKey(a, c) ==> Passed(Some(b), c)
  {
    RangeIsKey(a, b);
    if !SameKey(a, b) {
      WalkStops(keys, a, b);
    }
  }

  lemma {:induction false} WalkRunsOut(keys: set<Address>, a: Address)
    requires Walking(keys, a, None)
    ensures !ScanFails(keys, a)
  {}
}
