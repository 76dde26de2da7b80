/**
 The file list that peers exchange: EncodeFileMetadataList and
 DecodeFileMetadataList of src/server/query_handler.go.
 */
module FileList {
  import opened Bytes
  import opened Codecs

  const FILE_INFO_LENGTH := 64
  const MAX_PATH_LENGTH := 4096
  const MAX_FILE_SIZE := 0x4000_0000

  datatype FileMetadata = FileMetadata(name: Bytes, hash: Bytes, size: int64, remotePath: Bytes, modTime: int64)

  // ---- the format ----

  predicate Sendable(f: FileMetadata) {
    |f.name| <= FILE_INFO_LENGTH && |f.hash| <= FILE_INFO_LENGTH && |f.remotePath| <= MAX_PATH_LENGTH
  }

  function Filtered(files: seq<FileMetadata>): (r: seq<FileMetadata>)
    ensures forall i :: 0 <= i < |r| ==> Sendable(r[i])
  {
    if files == [] then []
    else Filtered(files[..|files| - 1]) + if Sendable(files[|files| - 1]) then [files[|files| - 1]] else []
  }

  function FileBytes(f: FileMetadata): (s: Bytes)
    ensures |s| == 28 + |f.name| + |f.hash| + |f.remotePath|
  {
    Sized(f.name) + (Sized(f.hash) + (Int64(f.size) + (Sized(f.remotePath) + Int64(f.modTime))))
  }

  ghost function FileWriter(): (w: Writer<FileMetadata>)
    ensures IsWriter(w)
  {
    imap f :: FileBytes(f)
  }

  /** `w` writes files. Proofs about lists use any such writer. */
  ghost predicate WritesFiles(w: Writer<FileMetadata>) {
    IsWriter(w) && forall f :: Writes(w, f)
  }

  ghost predicate Writes(w: Writer<FileMetadata>, f: FileMetadata) {
    f in w && w[f] == FileBytes(f)
  }

  ghost function ListBytes(files: seq<FileMetadata>): Bytes {
    Uint32(Low32(|files|)) + WriteMany(FileWriter(), files, 0)
  }

  predicate HasLineBreak(s: Bytes) {
    13 in s || 10 in s
  }

  predicate HasTraversal(s: Bytes) {
    47 in s || 92 in s || s == [46, 46]
  }

  /** What the decoder demands of an entry; `valid` are the names that pass the
      path check. */
  predicate Clean(f: FileMetadata, valid: iset<Bytes>) {
    && !HasLineBreak(f.hash) && !HasLineBreak(f.name) && !HasLineBreak(f.remotePath)
    && !HasTraversal(f.hash) && f.name in valid && 0 <= f.size <= MAX_FILE_SIZE
  }

  function ParseFile(s: Bytes): Parsed<FileMetadata> {
    var name := ParseSized(s, FILE_INFO_LENGTH);
    if name.Bad? then Bad(name.error)
    else
      var hash := ParseSized(name.rest, FILE_INFO_LENGTH);
      if hash.Bad? then Bad(hash.error)
      else
        var size := Take(hash.rest, 8);
        if size.Bad? then Bad(size.error)
        else ParseFileTail(name.value, hash.value, FromInt64(size.value), size.rest)
  }

  function ParseFileTail(name: Bytes, hash: Bytes, size: int64, s: Bytes): Parsed<FileMetadata> {
    var path := ParseSized(s, MAX_PATH_LENGTH);
    if path.Bad? then Bad(path.error)
    else
      var modTime := Take(path.rest, 8);
      if modTime.Bad? then Bad(modTime.error)
      else Done(FileMetadata(name, hash, size, path.value, FromInt64(modTime.value)), modTime.rest)
  }

  function ParseClean(s: Bytes, valid: iset<Bytes>): Parsed<FileMetadata> {
    var f := ParseFile(s);
    if f.Bad? then f else if Clean(f.value, valid) then f else Bad(Ebadmsg)
  }

  ghost function FileParser(valid: iset<Bytes>): (p: Parser<FileMetadata>)
    ensures IsParser(p)
  {
    imap s :: ParseClean(s, valid)
  }

  /** `p` parses files. */
  ghost predicate ParsesFiles(p: Parser<FileMetadata>, valid: iset<Bytes>) {
    IsParser(p) && forall s :: Parses(p, valid, s)
  }

  ghost predicate Parses(p: Parser<FileMetadata>, valid: iset<Bytes>, s: Bytes) {
    s in p && p[s] == ParseClean(s, valid)
  }

  ghost function ParseList(data: Bytes, valid: iset<Bytes>): Result<seq<FileMetadata>> {
    if |data| < 4 then Err(Einval)
    else if FromUint32(data[..4]) as int > (|data| - 4) / 28 then Err(Ebadmsg)
    else
      var r := ParseMany(FileParser(valid), data[4..], FromUint32(data[..4]));
      if r.Bad? then Err(r.error) else Ok(r.value)
  }

  /** The entries that are sent: those with short enough fields, as often and in the
      order in which they are given. */
  lemma {:induction false} FilteredExactly(a: seq<FileMetadata>, b: seq<FileMetadata>)
    ensures Filtered(a + b) == Filtered(a) + Filtered(b)
    ensures |a| == 1 ==>
              var f := a[0];
              Filtered(a) == if |f.name| <= 64 && |f.hash| <= 64 && |f.remotePath| <= 4096 then a else []
  {
    if b == [] {
      assert a + b == a;
      assert Filtered(a) + [] == Filtered(a);
    } else {
      var n := |b| - 1;
      FilteredExactly(a, b[..n]);
      assert (a + b)[..|a + b| - 1] == a + b[..n];
    }
    if |a| == 1 {
      assert a[..0] == [];
    }
  }

  /** Name, hash, size, path and time, the strings behind their lengths. */
  lemma {:induction false} FileLayout(f: FileMetadata)
    requires Sendable(f)
    ensures var s, n, h, p := FileBytes(f), |f.name|, |f.hash|, |f.remotePath|;
      && s[..4] == Uint32(n) && s[4..4 + n] == f.name
      && s[4 + n..8 + n] == Uint32(h) && s[8 + n..8 + n + h] == f.hash
      && s[8 + n + h..16 + n + h] == Int64(f.size)
      && s[16 + n + h..20 + n + h] == Uint32(p) && s[20 + n + h..20 + n + h + p] == f.remotePath
      && s[20 + n + h + p..] == Int64(f.modTime)
  {
    var n, h := |f.name|, |f.hash|;
    var c := Sized(f.remotePath) + Int64(f.modTime);
    var b := Int64(f.size) + c;
    var a := Sized(f.hash) + b;
    var s := Sized(f.name) + a;
    assert s[4 + n..] == a && a[4 + h..] == b && b[8..] == c;
    assert s[4 + n..][4 + h..] == s[8 + n + h..] && s[8 + n + h..][8..] == s[16 + n + h..];
  }

  // ---- round trip ----

  lemma {:induction false} FileTailBack(f: FileMetadata, rest: Bytes)
    requires Sendable(f)
    ensures ParseFileTail(f.name, f.hash, f.size, (Sized(f.remotePath) + Int64(f.modTime)) + rest) == Done(f, rest)
  {
    assert (Sized(f.remotePath) + Int64(f.modTime)) + rest == Sized(f.remotePath) + (Int64(f.modTime) + rest);
    SizedBack(f.remotePath, Int64(f.modTime) + rest, MAX_PATH_LENGTH);
    TakeFirst(Int64(f.modTime), rest);
    RoundTripInt64(f.modTime);
  }

  lemma {:induction false} FileBack(f: FileMetadata, rest: Bytes)
    requires Sendable(f)
    ensures ParseFile(FileBytes(f) + rest) == Done(f, rest)
  {
    var tail := Sized(f.remotePath) + Int64(f.modTime);
    var t2 := Int64(f.size) + (tail + rest);
    assert FileBytes(f) + rest == Sized(f.name) + (Sized(f.hash) + t2);
    SizedBack(f.name, Sized(f.hash) + t2, FILE_INFO_LENGTH);
    SizedBack(f.hash, t2, FILE_INFO_LENGTH);
    TakeFirst(Int64(f.size), tail + rest);
    RoundTripInt64(f.size);
    FileTailBack(f, rest);
  }

  lemma {:induction false} FileReadsBack(p: Parser<FileMetadata>, w: Writer<FileMetadata>, f: FileMetadata,
                                         valid: iset<Bytes>)
    requires ParsesFiles(p, valid) && WritesFiles(w) && Sendable(f)
    ensures ReadsBack(p, w, f, Clean(f, valid), Ebadmsg)
  {
    assert Writes(w, f);
    forall rest ensures p[w[f] + rest] == if Clean(f, valid) then Done(f, rest) else Bad(Ebadmsg) {
      assert Parses(p, valid, w[f] + rest);
      FileBack(f, rest);
    }
  }

  lemma {:induction false} FilesLength(w: Writer<FileMetadata>, files: seq<FileMetadata>, i: nat)
    requires WritesFiles(w) && i <= |files|
    ensures |WriteMany(w, files, i)| >= 28 * (|files| - i)
    decreases |files| - i
  {
    if i < |files| {
      assert Writes(w, files[i]);
      FilesLength(w, files, i + 1);
    }
  }

  ghost function CleanFiles(valid: iset<Bytes>): iset<FileMetadata> {
    iset f | Clean(f, valid)
  }

  lemma {:induction false} FilesBack(p: Parser<FileMetadata>, w: Writer<FileMetadata>, files: seq<FileMetadata>,
                                     valid: iset<Bytes>)
    requires ParsesFiles(p, valid) && WritesFiles(w) && forall k :: 0 <= k < |files| ==> Sendable(files[k])
    ensures ParseMany(p, WriteMany(w, files, 0), |files|) ==
      if forall k :: 0 <= k < |files| ==> files[k] in CleanFiles(valid) then Done(files, []) else Bad(Ebadmsg)
  {
    forall k | 0 <= k < |files| ensures ReadsBack(p, w, files[k], files[k] in CleanFiles(valid), Ebadmsg) {
      FileReadsBack(p, w, files[k], valid);
    }
    ManyBack(p, w, files, 0, [], CleanFiles(valid), Ebadmsg);
    assert WriteMany(w, files, 0) + [] == WriteMany(w, files, 0);
    assert files[0..] == files;
  }

  /** A list comes back as its length-filtered entries exactly if each of them
      passes the decoder's content checks; otherwise it is refused: no line breaks, no
      path characters in the hash, a name that passes the path check, and a size of at
      most 1 GiB. */
  lemma {:induction false} FileListRoundTrip(files: seq<FileMetadata>, valid: iset<Bytes>)
    requires |Filtered(files)| < TWO_32
    ensures var kept := Filtered(files);
      ParseList(ListBytes(kept), valid) ==
        if forall f <- kept ::
             && 10 !in f.name + f.hash + f.remotePath && 13 !in f.name + f.hash + f.remotePath
             && 47 !in f.hash && 92 !in f.hash && f.hash != [46, 46]
             && f.name in valid && 0 <= f.size <= 0x4000_0000
        then Ok(kept) else Err(Ebadmsg)
  {
    var kept := Filtered(files);
    var data := ListBytes(kept);
    var p, w := FileParser(valid), FileWriter();
    ItselfParses(valid);
    ItselfWrites();
    assert data[..4] == Uint32(|kept|) && data[4..] == WriteMany(w, kept, 0);
    RoundTrip32(|kept|);
    FilesLength(w, kept, 0);
    FilesBack(p, w, kept, valid);
  }

  lemma {:induction false} ItselfParses(valid: iset<Bytes>)
    ensures ParsesFiles(FileParser(valid), valid)
  {}

  lemma {:induction false} ItselfWrites()
    ensures WritesFiles(FileWriter())
  {}

  // ---- the code ----

  method FilterFiles(files: seq<FileMetadata>) returns (filtered: seq<FileMetadata>)
    ensures filtered == Filtered(files)
  {
    filtered := [];
    for i := 0 to |files|
      invariant filtered == Filtered(files[..i])
    {
      assert files[..i + 1][..i] == files[..i];
      var f := files[i];
      if |f.name| > FILE_INFO_LENGTH || |f.hash| > FILE_INFO_LENGTH || |f.remotePath| > MAX_PATH_LENGTH {
        continue;
      }
      filtered := filtered + [f];
    }
    assert files[..|files|] == files;
  }

  /** Writes one entry and returns the offset behind it. */
  method WriteFile(buf: array<byte>, at: nat, f: FileMetadata) returns (off: nat)
    requires at + |FileBytes(f)| <= buf.Length
    modifies buf
    ensures off == at + |FileBytes(f)| && buf[..off] == old(buf[..at]) + FileBytes(f)
  {
    ghost var before := buf[..at];
    off := WriteFileHead(buf, at, f);
    off := WriteFileTail(buf, off, f);
    InFront(before, f);
  }

  lemma {:induction false} InFront(before: Bytes, f: FileMetadata)
    ensures (before + (Sized(f.name) + Sized(f.hash))) + (Int64(f.size) + (Sized(f.remotePath) + Int64(f.modTime))) ==
      before + FileBytes(f)
  {}

  method WriteFileHead(buf: array<byte>, at: nat, f: FileMetadata) returns (off: nat)
    requires at + 8 + |f.name| + |f.hash| <= buf.Length
    modifies buf
    ensures off == at + 8 + |f.name| + |f.hash| && buf[..off] == old(buf[..at]) + (Sized(f.name) + Sized(f.hash))
  {
    off := at;
    CopyInto(buf, off, Sized(f.name));
    off := off + 4 + |f.name|;
    CopyInto(buf, off, Sized(f.hash));
    off := off + 4 + |f.hash|;
  }

  method WriteFileTail(buf: array<byte>, at: nat, f: FileMetadata) returns (off: nat)
    requires at + 20 + |f.remotePath| <= buf.Length
    modifies buf
    ensures off == at + 20 + |f.remotePath|
    ensures buf[..off] == old(buf[..at]) + (Int64(f.size) + (Sized(f.remotePath) + Int64(f.modTime)))
  {
    off := at;
    CopyInto(buf, off, Int64(f.size));
    off := off + 8;
    CopyInto(buf, off, Sized(f.remotePath));
    off := off + 4 + |f.remotePath|;
    CopyInto(buf, off, Int64(f.modTime));
    off := off + 8;
  }

  method EncodeFileMetadataList(files: seq<FileMetadata>) returns (buf: array<byte>)
    ensures fresh(buf) && buf[..] == ListBytes(Filtered(files))
  {
    var filtered := FilterFiles(files);
    ghost var w := FileWriter();
    ItselfWrites();
    var size := SizeOfFiles(w, filtered);
    buf := new byte[4 + size];
    CopyInto(buf, 0, Uint32(Low32(|filtered|)));
    WriteFiles(buf, w, filtered);
  }

  method SizeOfFiles(ghost w: Writer<FileMetadata>, files: seq<FileMetadata>) returns (size: nat)
    requires WritesFiles(w)
    ensures size == |WriteMany(w, files, 0)|
  {
    size := 0;
    for i := 0 to |files|
      invariant size + |WriteMany(w, files, i)| == |WriteMany(w, files, 0)|
    {
      assert Writes(w, files[i]);
      var f := files[i];
      size := size + 4 + |f.name| + 4 + |f.hash| + 8 + 4 + |f.remotePath| + 8;
    }
  }

  method WriteFiles(buf: array<byte>, ghost w: Writer<FileMetadata>, files: seq<FileMetadata>)
    requires WritesFiles(w) && buf.Length == 4 + |WriteMany(w, files, 0)|
    modifies buf
    ensures buf[..] == old(buf[..4]) + WriteMany(w, files, 0)
  {
    var off := 4;
    ghost var all := buf[..4] + WriteMany(w, files, 0);
    for i := 0 to |files|
      invariant 0 <= off <= buf.Length && off + |WriteMany(w, files, i)| == buf.Length
      invariant buf[..off] + WriteMany(w, files, i) == all
    {
      assert Writes(w, files[i]);
      ghost var before, rest := buf[..off], WriteMany(w, files, i + 1);
      off := WriteFile(buf, off, files[i]);
      assert before + (w[files[i]] + rest) == (before + w[files[i]]) + rest;
    }
    assert buf[..off] == buf[..];
  }

  /** Reads a sized string at an offset. */
  method ReadSized(data: Bytes, at: nat, max: nat) returns (r: Result<Bytes>, off: nat)
    requires at <= |data|
    ensures match r
      case Ok(v) => at <= off <= |data| && ParseSized(data[at..], max) == Done(v, data[off..])
      case Err(e) => ParseSized(data[at..], max) == Bad(e)
  {
    off := at;
    if off + 4 > |data| {
      return Err(Truncated), off;
    }
    assert data[at..][..4] == data[at..at + 4];
    var n := FromUint32(data[off..off + 4]) as int;
    off := off + 4;
    assert data[at..][4..] == data[off..];
    if n > max {
      return Err(Ebadmsg), off;
    }
    if off + n > |data| {
      return Err(Truncated), off;
    }
    r := Ok(data[off..off + n]);
    assert data[off..][..n] == data[off..off + n] && data[off..][n..] == data[off + n..];
    off := off + n;
  }

  method ReadInt64(data: Bytes, at: nat) returns (r: Result<int64>, off: nat)
    requires at <= |data|
    ensures match r
      case Ok(v) => off == at + 8 <= |data| && Take(data[at..], 8) == Done(data[at..off], data[off..]) &&
          v == FromInt64(data[at..off])
      case Err(e) => Take(data[at..], 8) == Bad(e)
  {
    off := at;
    if off + 8 > |data| {
      return Err(Truncated), off;
    }
    r := Ok(FromInt64(data[off..off + 8]));
    off := off + 8;
    assert data[at..][..8] == data[at..off] && data[at..][8..] == data[off..];
  }

  method ReadFile(data: Bytes, at: nat) returns (r: Result<FileMetadata>, off: nat)
    requires at <= |data|
    ensures match r
      case Ok(f) => at <= off <= |data| && ParseFile(data[at..]) == Done(f, data[off..])
      case Err(e) => ParseFile(data[at..]) == Bad(e)
  {
    var name: Result<Bytes>, hash: Result<Bytes>, size: Result<int64>;
    name, off := ReadSized(data, at, FILE_INFO_LENGTH);
    if name.Err? {
      return Err(name.error), off;
    }
    hash, off := ReadSized(data, off, FILE_INFO_LENGTH);
    if hash.Err? {
      return Err(hash.error), off;
    }
    size, off := ReadInt64(data, off);
    if size.Err? {
      return Err(size.error), off;
    }
    r, off := ReadFileTail(data, off, name.value, hash.value, size.value);
  }

  method ReadFileTail(data: Bytes, at: nat, name: Bytes, hash: Bytes, size: int64)
    returns (r: Result<FileMetadata>, off: nat)
    requires at <= |data|
    ensures match r
      case Ok(f) => at <= off <= |data| && ParseFileTail(name, hash, size, data[at..]) == Done(f, data[off..])
      case Err(e) => ParseFileTail(name, hash, size, data[at..]) == Bad(e)
  {
    var path: Result<Bytes>, modTime: Result<int64>;
    path, off := ReadSized(data, at, MAX_PATH_LENGTH);
    if path.Err? {
      return Err(path.error), off;
    }
    modTime, off := ReadInt64(data, off);
    if modTime.Err? {
      return Err(modTime.error), off;
    }
    r := Ok(FileMetadata(name, hash, size, path.value, modTime.value));
  }

  method DecodeFileMetadataList(data: Bytes, valid: iset<Bytes>) returns (r: Result<seq<FileMetadata>>)
    ensures r == ParseList(data, valid)
    ensures |data| < 4 ==> r == Err(Einval)
    ensures |data| >= 4 && FromUint32(data[..4]) > (|data| - 4) / 28 ==> r == Err(Ebadmsg)
  {
    if |data| < 4 {
      return Err(Einval);
    }
    var count := FromUint32(data[..4]) as int;
    var maxCount := (|data| - 4) / 28;
    if count > maxCount {
      return Err(Ebadmsg);
    }
    ItselfParses(valid);
    r := ReadFiles(FileParser(valid), data, count, valid);
  }

  method ReadFiles(ghost p: Parser<FileMetadata>, data: Bytes, count: nat, valid: iset<Bytes>)
    returns (r: Result<seq<FileMetadata>>)
    requires ParsesFiles(p, valid) && |data| >= 4
    ensures var m := ParseMany(p, data[4..], count); r == if m.Bad? then Err(m.error) else Ok(m.value)
  {
    ghost var all := ParseMany(p, data[4..], count);
    var files: seq<FileMetadata>, off := [], 4;
    AfterNone(all);
    for i := 0 to count
      invariant 4 <= off <= |data| && After(files, ParseMany(p, data[off..], count - i)) == all
    {
      assert Parses(p, valid, data[off..]);
      var f, next := ReadClean(data, off, valid);
      if f.Err? {
        return Err(f.error);
      }
      ParseOne(p, data[off..], count - i, files);
      files, off := files + [f.value], next;
    }
    assert files + [] == files;
    r := Ok(files);
  }

  method ReadClean(data: Bytes, at: nat, valid: iset<Bytes>) returns (r: Result<FileMetadata>, off: nat)
    requires at <= |data|
    ensures match r
      case Ok(f) => at <= off <= |data| && ParseClean(data[at..], valid) == Done(f, data[off..])
      case Err(e) => ParseClean(data[at..], valid) == Bad(e)
  {
    r, off := ReadFile(data, at);
    if r.Ok? && !Clean(r.value, valid) {
      r := Err(Ebadmsg);
    }
  }
}
