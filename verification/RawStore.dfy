/**
 The bump allocator of src/storage/raw_blobstore.go: blobs are written one behind
 the other on a raw device, and an allocation table maps each hash to its extent.
 The device is an array of bytes; writing past its end is the write error of the
 program. The allocation bucket is a map updated atomically.
 */
module RawStore {
  import opened Bytes

  const MAX_FILE_SIZE := 0x4000_0000
  const MAX_INT64 := 0x7FFF_FFFF_FFFF_FFFF
  const BUFFER_SIZE := 0x1_0000

  datatype Extent = Extent(offset: int, length: int)

  datatype Status = Ok | Einval | Eio | Efbig | Enoent

  datatype Result<+T> = Success(value: T) | Failure(status: Status)

  predicate HasPathTraversalChars(s: string) {
    '/' in s || '\\' in s || s == ".."
  }

  /** How many of `n` bytes pass a limited reader. */
  function Copied(n: nat, limit: nat): nat {
    if n < limit then n else limit
  }

  predicate Fits(offset: int, n: nat, size: nat) {
    n == 0 || offset + n <= size
  }

  /** The verdict on a Put at offset `next` of a device of `size` bytes. */
  function PutStatus(hash: string, present: bool, next: int, n: nat, readable: nat, size: nat): Status {
    var total := Copied(n, MAX_FILE_SIZE + 1);
    if HasPathTraversalChars(hash) then Einval
    else if present then Ok
    else if next > MAX_INT64 - MAX_FILE_SIZE || total > readable || !Fits(next, total, size) then Eio
    else if n > MAX_FILE_SIZE then Efbig
    else if hash == "" then Eio
    else Ok
  }

  /** The extent holds bytes. */
  predicate Live(e: Extent) {
    e.length > 0
  }

  predicate Apart(e: Extent, f: Extent) {
    e.offset + e.length <= f.offset || f.offset + f.length <= e.offset
  }

  /** The extent lies below `next` and `next` is a valid offset. */
  predicate Below(e: Extent, next: int) {
    0 <= e.offset && 0 <= e.length <= MAX_FILE_SIZE && (Live(e) ==> e.offset + e.length <= next)
  }

  /** Live extents are pairwise disjoint and end at or below `next`. */
  ghost predicate Laid(alloc: map<string, Extent>, next: int) {
    && 0 <= next <= MAX_INT64
    && (forall h <- alloc :: Below(alloc[h], next))
    && (forall h <- alloc, g <- alloc :: h != g && Live(alloc[h]) && Live(alloc[g]) ==> Apart(alloc[h], alloc[g]))
  }

  /** The device holds the bytes of a blob in its extent. */
  ghost predicate Holds(device: Bytes, e: Extent, content: Bytes) {
    && |content| == e.length
    && (Live(e) ==>
          && 0 <= e.offset <= e.offset + e.length <= |device|
          && device[e.offset..e.offset + e.length] == content)
  }

  ghost predicate Consistent(device: Bytes, alloc: map<string, Extent>, next: int, contents: map<string, Bytes>) {
    && Laid(alloc, next) && Clean(alloc.Keys) && next <= |device| && contents.Keys == alloc.Keys
    && forall h <- alloc :: Holds(device, alloc[h], contents[h])
  }

  /** Put lets no other hash into the table. */
  predicate Clean(hashes: set<string>) {
    forall h <- hashes :: !HasPathTraversalChars(h)
  }

  /** Every live extent lies on a device of `size` bytes. */
  ghost predicate Mapped(alloc: map<string, Extent>, next: int, size: nat) {
    && 0 <= next <= size && Clean(alloc.Keys)
    && forall h <- alloc ::
         && 0 <= alloc[h].offset && 0 <= alloc[h].length <= MAX_FILE_SIZE
         && (Live(alloc[h]) ==> alloc[h].offset + alloc[h].length <= size)
  }

  class RawBlobStore {
    const device: array<byte>
    var alloc: map<string, Extent>
    var nextOffset: int
    /** The bytes put under each hash of the table. */
    ghost var contents: map<string, Bytes>

    ghost predicate Valid()
      reads this, device
    {
      Consistent(device[..], alloc, nextOffset, contents)
    }

    /** What every history keeps, reopening included. */
    ghost predicate Sound()
      reads this
    {
      Mapped(alloc, nextOffset, device.Length)
    }

    lemma ValidIsSound()
      requires Valid()
      ensures Sound()
    {
      forall h <- alloc ensures Below(alloc[h], nextOffset) {}
    }

    /** Opens a device with an empty allocation table. */
    constructor (device: array<byte>)
      ensures Valid() && this.device == device && alloc == map[] && nextOffset == 0
    {
      this.device := device;
      alloc, nextOffset, contents := map[], 0, map[];
    }

    /** device.WriteAt: writes what fits. */
    method WriteAt(data: Bytes, at: nat) returns (written: nat)
      modifies device
      ensures written <= |data| && (written == |data| <==> |data| == 0 || at + |data| <= device.Length)
      ensures forall i :: 0 <= i < written && at + i < device.Length ==> device[at + i] == data[i]
      ensures forall i :: 0 <= i < device.Length && !(at <= i < at + written) ==> device[i] == old(device[i])
      ensures written > 0 ==> at + written <= device.Length
    {
      written := 0;
      while written < |data| && at + written < device.Length
        invariant written <= |data| && (written > 0 ==> at + written <= device.Length)
        invariant forall i :: 0 <= i < written ==> device[at + i] == data[i]
        invariant forall i :: 0 <= i < device.Length && !(at <= i < at + written) ==> device[i] == old(device[i])
      {
        device[at + written] := data[written];
        written := written + 1;
      }
    }

    /** The copy loop: at most `limit` bytes of the content, in buffers of 64 KiB;
        the reader fails once `readable` bytes are read. */
    method CopyIn(content: Bytes, readable: nat, limit: nat, offset: nat) returns (ok: bool, total: nat)
      modifies device
      ensures forall i :: 0 <= i < device.Length && i < offset ==> device[i] == old(device[i])
      ensures ok <==> Copied(|content|, limit) <= readable && Fits(offset, Copied(|content|, limit), device.Length)
      ensures ok ==> total == Copied(|content|, limit)
      ensures ok && total > 0 ==> offset + total <= device.Length && device[offset..offset + total] == content[..total]
    {
      total := 0;
      var size := Copied(|content|, limit);
      while total < size
        invariant total <= size && total <= readable
        invariant total > 0 ==> offset + total <= device.Length
        invariant forall i :: 0 <= i < total ==> device[offset + i] == content[i]
        invariant forall i :: 0 <= i < device.Length && i < offset ==> device[i] == old(device[i])
      {
        var n := if size - total < BUFFER_SIZE then size - total else BUFFER_SIZE;
        if total + n > readable {
          return false, total;
        }
        var written := WriteAt(content[total..total + n], offset + total);
        if written != n {
          return false, total;
        }
        total := total + n;
      }
      ok := true;
      if total > 0 {
        assert device[offset..offset + total] == content[..total];
      }
    }

    method PutBlob(hash: string, content: Bytes, readable: nat) returns (s: Status)
      requires Sound()
      modifies this`alloc, this`nextOffset, this`contents, device
      ensures Sound() && (old(Valid()) ==> Valid())
      ensures s == PutStatus(hash, hash in old(alloc), old(nextOffset), |content|, readable, device.Length)
      ensures s == Einval <==> '/' in hash || '\\' in hash || hash == ".."
      ensures hash in old(alloc) ==> s == Ok || s == Einval
      ensures s == Ok && hash !in old(alloc) ==>
                && hash != "" && |content| <= MAX_FILE_SIZE && |content| <= readable
                && old(nextOffset) <= MAX_INT64 - MAX_FILE_SIZE
      ensures s == Efbig ==> |content| > MAX_FILE_SIZE
      ensures s == Eio ==>
                || hash == "" || |content| > readable || old(nextOffset) > MAX_INT64 - MAX_FILE_SIZE
                || old(nextOffset) + |content| > device.Length
      ensures if s == Ok && hash !in old(alloc) then
                && contents == old(contents)[hash := content]
                && alloc == old(alloc)[hash := Extent(old(nextOffset), |content|)] &&
                   nextOffset == old(nextOffset) + |content|
                && device[old(nextOffset)..nextOffset] == content
              else contents == old(contents) && alloc == old(alloc) && nextOffset == old(nextOffset)
    {
      if HasPathTraversalChars(hash) {
        return Einval;
      }
      if hash in alloc {
        return Ok;
      }
      var offset := nextOffset;
      if offset > MAX_INT64 - MAX_FILE_SIZE {
        return Eio;
      }
      ghost var before := device[..];
      var copied, totalWritten := CopyIn(content, readable, MAX_FILE_SIZE + 1, offset);
      if old(Valid()) {
        BytesKept(before, device[..], alloc, nextOffset, contents);
      }
      if !copied {
        return Eio;
      }
      if totalWritten > MAX_FILE_SIZE {
        return Efbig;
      }
      if hash == "" {
        return Eio;
      }
      if old(Valid()) {
        BlobAdded(device[..], alloc, nextOffset, contents, hash, content);
      }
      alloc := alloc[hash := Extent(offset, totalWritten)];
      nextOffset := offset + totalWritten;
      contents := contents[hash := content];
      s := Ok;
    }

    /** GetBlob reads the extent of the hash, which on a valid store holds exactly the
        nonempty bytes that were put. */
    method GetBlob(hash: string) returns (r: Result<Bytes>)
      requires Sound()
      ensures r == if HasPathTraversalChars(hash) then Failure(Einval)
                   else if hash !in alloc then Failure(Enoent)
                   else if alloc[hash].length == 0 then Failure(Eio)
                   else Success(device[alloc[hash].offset..alloc[hash].offset + alloc[hash].length])
      ensures Valid() && !HasPathTraversalChars(hash) ==>
                r == if hash !in contents then Failure(Enoent)
                     else if contents[hash] == [] then Failure(Eio)
                     else Success(contents[hash])
    {
      if HasPathTraversalChars(hash) {
        return Failure(Einval);
      }
      if hash !in alloc {
        return Failure(Enoent);
      }
      var e := alloc[hash];
      if e.length <= 0 || e.length > MAX_FILE_SIZE || e.offset < 0 {
        r := Failure(Eio);
      } else {
        r := Success(device[e.offset..e.offset + e.length]);
      }
      assert Valid() ==> Holds(device[..], e, contents[hash]);
    }

    method DeleteBlob(hash: string) returns (s: Status)
      requires Sound()
      modifies this`alloc, this`contents
      ensures Sound() && (old(Valid()) ==> Valid())
      ensures s == if HasPathTraversalChars(hash) then Einval else Ok
      ensures alloc == (if s == Ok then old(alloc) - {hash} else old(alloc))
      ensures contents == if s == Ok then old(contents) - {hash} else old(contents)
    {
      if HasPathTraversalChars(hash) {
        return Einval;
      }
      if Valid() {
        BlobRemoved(device[..], alloc, nextOffset, contents, hash);
      }
      alloc := alloc - {hash};
      contents := contents - {hash};
      s := Ok;
    }

    /** Closing and opening again: the table and the device stay, the next offset
        is recovered from the table. */
    method Reopen()
      requires Sound()
      modifies this`nextOffset
      ensures Sound() && IsRecovered(alloc, nextOffset)
      ensures old(Valid()) ==> (Valid() <==> Recoverable(alloc))
    {
      ghost var before, valid := nextOffset, Valid();
      nextOffset := Recover(alloc);
      if valid {
        RecoverySound(alloc, before, nextOffset);
        RecoveredBelow(alloc, before, nextOffset);
      }
    }

    /** A blob that recovery does not see is overwritten: reopening and one more Put
        change the bytes that Get returns for it. */
    method ReopenLoses(hash: string) returns (r: Result<Bytes>)
      requires Valid() && Exposed(alloc, hash)
      modifies this`alloc, this`nextOffset, this`contents, device
      ensures hash in contents && hash in old(contents) && contents[hash] == old(contents)[hash]
      ensures r.Success? && r.value != contents[hash]
    {
      ValidIsSound();
      ExposedAtZero(device[..], alloc, nextOffset, contents, hash);
      Reopen();
      ExposedLost(alloc, hash, nextOffset);
      var other := NewHash(alloc.Keys);
      var first: byte := if device[0] == 0 then 1 else 0;
      var s := PutBlob(other, [first], 1);
      assert device[0] == device[0..1][0] == first;
      r := GetBlob(hash);
      assert r.value[0] == device[0];
    }
  }

  lemma {:induction false} ExposedAtZero(device: Bytes, alloc: map<string, Extent>, next: int,
                                         contents: map<string, Bytes>, hash: string)
    requires Consistent(device, alloc, next, contents) && Exposed(alloc, hash)
    ensures hash in contents && contents[hash] != [] && device != [] && contents[hash][0] == device[0]
  {
    assert Holds(device, alloc[hash], contents[hash]);
    assert device[0] == device[0..alloc[hash].length][0];
  }

  lemma {:induction false} ExposedLost(alloc: map<string, Extent>, hash: string, next: int)
    requires Exposed(alloc, hash) && IsRecovered(alloc, next)
    ensures next == 0
  {}

  /** A hash that is not in use. */
  method NewHash(hashes: set<string>) returns (h: string)
    ensures h !in hashes && h != "" && !HasPathTraversalChars(h)
  {
    h := "a";
    while h in hashes
      invariant h != "" && forall c <- h :: c == 'a'
      decreases set g <- hashes | |g| >= |h|
    {
      ghost var longer := set g <- hashes | |g| >= |h|;
      assert h in longer;
      h := h + "a";
    }
    assert h[0] in h;
  }

  lemma {:induction false} LaidAbove(alloc: map<string, Extent>, next: int, hash: string, length: int)
    requires Laid(alloc, next) && 0 <= length <= MAX_FILE_SIZE && next + length <= MAX_INT64
    ensures Laid(alloc[hash := Extent(next, length)], next + length)
  {
    forall h <- alloc
      ensures Below(alloc[h], next + length) && (Live(alloc[h]) ==> Apart(alloc[h], Extent(next, length)))
    {
      assert Below(alloc[h], next);
    }
  }

  lemma {:induction false} LaidWithout(alloc: map<string, Extent>, next: int, hash: string)
    requires Laid(alloc, next)
    ensures Laid(alloc - {hash}, next)
  {}

  /** What is above the allocated part of the device can change freely. */
  lemma {:induction false} BytesKept(before: Bytes, now: Bytes, alloc: map<string, Extent>, next: int,
                                     contents: map<string, Bytes>)
    requires Consistent(before, alloc, next, contents) && |now| == |before| &&
             forall i :: 0 <= i < next ==> now[i] == before[i]
    ensures Consistent(now, alloc, next, contents)
  {
    forall h <- alloc ensures Holds(now, alloc[h], contents[h]) {
      var e := alloc[h];
      assert Holds(before, e, contents[h]) && Below(e, next);
      if Live(e) {
        assert now[e.offset..e.offset + e.length] == before[e.offset..e.offset + e.length];
      }
    }
  }

  lemma {:induction false} BlobAdded(device: Bytes, alloc: map<string, Extent>, next: int, contents: map<string, Bytes>,
                                     hash: string, content: Bytes)
    requires Consistent(device, alloc, next, contents) && hash !in alloc && !HasPathTraversalChars(hash)
    requires |content| <= MAX_FILE_SIZE && next + |content| <= MAX_INT64
    requires content != [] ==> next + |content| <= |device| && device[next..next + |content|] == content
    ensures Consistent(device, alloc[hash := Extent(next, |content|)], next + |content|, contents[hash := content])
  {
    LaidAbove(alloc, next, hash, |content|);
  }

  lemma {:induction false} BlobRemoved(device: Bytes, alloc: map<string, Extent>, next: int,
                                       contents: map<string, Bytes>, hash: string)
    requires Consistent(device, alloc, next, contents)
    ensures Consistent(device, alloc - {hash}, next, contents - {hash})
  {
    LaidWithout(alloc, next, hash);
  }

  // ---- recovery ----

  /** The scan counts an entry unless its offset is 0. */
  predicate Counted(e: Extent) {
    e.offset > 0 && e.length > 0 && e.offset <= MAX_INT64 - e.length
  }

  /** The greatest end among the counted entries, 0 without any. */
  ghost predicate IsRecovered(alloc: map<string, Extent>, next: int) {
    && (forall h <- alloc :: Counted(alloc[h]) ==> alloc[h].offset + alloc[h].length <= next)
    && (next == 0 || exists h <- alloc :: Counted(alloc[h]) && alloc[h].offset + alloc[h].length == next)
    && next >= 0
  }

  method Recover(alloc: map<string, Extent>) returns (next: int)
    ensures IsRecovered(alloc, next)
  {
    next := 0;
    var todo := alloc.Keys;
    while todo != {}
      invariant todo <= alloc.Keys && next >= 0
      invariant forall h <- alloc :: h !in todo && Counted(alloc[h]) ==> alloc[h].offset + alloc[h].length <= next
      invariant next == 0 || exists h <- alloc :: Counted(alloc[h]) && alloc[h].offset + alloc[h].length == next
    {
      var h :| h in todo;
      var e := alloc[h];
      if e.offset > 0 && e.length > 0 && e.offset <= MAX_INT64 - e.length {
        var end := e.offset + e.length;
        if end > next {
          next := end;
        }
      }
      todo := todo - {h};
    }
  }

  /** The extent of the hash starts at offset 0, and no live extent lies above it. */
  predicate Exposed(alloc: map<string, Extent>, hash: string) {
    && hash in alloc && Live(alloc[hash]) && alloc[hash].offset == 0
    && forall g <- alloc :: !(Live(alloc[g]) && alloc[g].offset > 0)
  }

  /** No live extent starts at offset 0, or another live extent lies above it. */
  predicate Recoverable(alloc: map<string, Extent>) {
    forall h <- alloc :: !Exposed(alloc, h)
  }

  /** Recovery keeps the live extents below the next offset exactly if it does not
      lose sight of the one at offset 0. */
  lemma {:induction false} RecoverySound(alloc: map<string, Extent>, before: int, next: int)
    requires Laid(alloc, before) && IsRecovered(alloc, next)
    ensures Laid(alloc, next) <==> Recoverable(alloc)
  {
    forall h <- alloc
      ensures Below(alloc[h], before) && (Live(alloc[h]) && alloc[h].offset > 0 ==> Counted(alloc[h]))
    {}
    if Recoverable(alloc) {
      assert next <= before;
      forall h <- alloc ensures Below(alloc[h], next) {
        if Live(alloc[h]) && alloc[h].offset == 0 {
          assert !Exposed(alloc, h);
          var g :| g in alloc && Live(alloc[g]) && alloc[g].offset > 0;
          assert Apart(alloc[h], alloc[g]);
        }
      }
    } else {
      var h :| h in alloc && Exposed(alloc, h);
      assert next == 0;
      assert !Below(alloc[h], next);
    }
  }

  lemma {:induction false} RecoveredBelow(alloc: map<string, Extent>, before: int, next: int)
    requires Laid(alloc, before) && IsRecovered(alloc, next)
    ensures next <= before
  {
    if next != 0 {
      var h :| h in alloc && Counted(alloc[h]) && alloc[h].offset + alloc[h].length == next;
      assert Below(alloc[h], before);
    }
  }
}
