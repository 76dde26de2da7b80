/**
 The object metadata entry of src/storage/storage.go, with its two legacy forms:
 a decimal string and a fixed 24-byte record.
 */
module ObjectMeta {
  import opened Bytes
  import opened Codecs

  datatype Meta = Meta(size: int64, refCount: int64, deletedAt: int64, vectorClock: seq<uint64>, shardKey: Bytes,
                       replicas: seq<int32>)

  // ---- numbers in a row ----

  function ParseClock(s: Bytes): Parsed<uint64> {
    if |s| < 8 then Bad(Ebadmsg) else Done(FromUint64(s[..8]), s[8..])
  }

  function ParseReplica(s: Bytes): Parsed<int32> {
    if |s| < 4 then Bad(Ebadmsg) else Done(FromInt32(s[..4]), s[4..])
  }

  ghost function ClockParser(): (p: Parser<uint64>)
    ensures IsParser(p)
  {
    imap s :: ParseClock(s)
  }

  ghost function ReplicaParser(): (p: Parser<int32>)
    ensures IsParser(p)
  {
    imap s :: ParseReplica(s)
  }

  ghost function ClockWriter(): (w: Writer<uint64>)
    ensures IsWriter(w)
  {
    imap v: uint64 :: Uint64(v)
  }

  ghost function ReplicaWriter(): (w: Writer<int32>)
    ensures IsWriter(w)
  {
    imap v: int32 :: Int32(v)
  }

  lemma {:induction false} ClocksBack(xs: seq<uint64>, rest: Bytes)
    ensures ParseMany(ClockParser(), WriteMany(ClockWriter(), xs, 0) + rest, |xs|) == Done(xs, rest)
  {
    var p, w := ClockParser(), ClockWriter();
    var all := iset v: uint64 | v in w;
    forall k | 0 <= k < |xs| ensures ReadsBack(p, w, xs[k], xs[k] in all, Ebadmsg) {
      forall t ensures p[w[xs[k]] + t] == Done(xs[k], t) {
        var s := Uint64(xs[k]) + t;
        assert s[..8] == Uint64(xs[k]) && s[8..] == t;
        RoundTrip64(xs[k]);
      }
    }
    ManyBack(p, w, xs, 0, rest, all, Ebadmsg);
    assert xs[0..] == xs;
  }

  lemma {:induction false} ReplicasBack(xs: seq<int32>, rest: Bytes)
    ensures ParseMany(ReplicaParser(), WriteMany(ReplicaWriter(), xs, 0) + rest, |xs|) == Done(xs, rest)
  {
    var p, w := ReplicaParser(), ReplicaWriter();
    var all := iset v: int32 | v in w;
    forall k | 0 <= k < |xs| ensures ReadsBack(p, w, xs[k], xs[k] in all, Ebadmsg) {
      forall t ensures p[w[xs[k]] + t] == Done(xs[k], t) {
        var s := Int32(xs[k]) + t;
        assert s[..4] == Int32(xs[k]) && s[4..] == t;
        RoundTripInt32(xs[k]);
      }
    }
    ManyBack(p, w, xs, 0, rest, all, Ebadmsg);
    assert xs[0..] == xs;
  }

  // ---- the format ----

  function Zeros(n: nat): (s: Bytes)
    ensures |s| == n && forall i :: 0 <= i < n ==> s[i] == 0
  {
    if n == 0 then [] else Zeros(n - 1) + [0]
  }

  function Fixed(m: Meta): (s: Bytes)
    ensures |s| == 24
  {
    Int64(m.size) + Int64(m.refCount) + Int64(m.deletedAt)
  }

  /** The shard key field: the length, as many zero bytes, and the key. */
  function ShardField(key: Bytes): Bytes {
    Uint32(Low32(|key|)) + (Zeros(|key|) + key)
  }

  ghost function ReplicaField(rs: seq<int32>): Bytes {
    Uint32(Low32(|rs|)) + WriteMany(ReplicaWriter(), rs, 0)
  }

  ghost function ClockField(vc: seq<uint64>): Bytes {
    Uint32(Low32(|vc|)) + WriteMany(ClockWriter(), vc, 0)
  }

  ghost function MetaBytes(m: Meta): Bytes {
    Fixed(m) + (ClockField(m.vectorClock) + (ShardField(m.shardKey) + ReplicaField(m.replicas)))
  }

  predicate IsDigit(b: byte) {
    48 <= b <= 57
  }

  predicate AllDigits(s: Bytes) {
    forall i :: 0 <= i < |s| ==> IsDigit(s[i])
  }

  function Digits(s: Bytes): nat
    requires AllDigits(s)
  {
    if s == [] then 0 else Digits(s[..|s| - 1]) * 10 + (s[|s| - 1] as int - 48)
  }

  /** strconv.ParseInt with base 10: an optional sign and digits, within int64. */
  predicate IsDecimal(s: Bytes) {
    var t := if s != [] && (s[0] == 43 || s[0] == 45) then s[1..] else s;
    t != [] && AllDigits(t) && -0x8000_0000_0000_0000 <= DecimalValue(s) < 0x8000_0000_0000_0000
  }

  function DecimalValue(s: Bytes): int {
    var t := if s != [] && (s[0] == 43 || s[0] == 45) then s[1..] else s;
    if !AllDigits(t) then 0 else if s != [] && s[0] == 45 then 0 - Digits(t) as int else Digits(t) as int
  }

  /** A count behind which that many values follow. */
  ghost function ParseCounted<T>(p: Parser<T>, s: Bytes): Parsed<seq<T>>
    requires IsParser(p)
  {
    if |s| < 4 then Bad(Ebadmsg) else ParseMany(p, s[4..], FromUint32(s[..4]))
  }

  function ParseShard(s: Bytes): Parsed<Bytes> {
    if |s| < 4 then Bad(Ebadmsg)
    else
      var n := FromUint32(s[..4]) as int;
      if |s| < 4 + n then Bad(Ebadmsg) else Done(s[4..4 + n], s[4 + n..])
  }

  ghost function ParseVariable(s: Bytes): Result<(seq<uint64>, Bytes, seq<int32>)> {
    var vc := ParseCounted(ClockParser(), s);
    if vc.Bad? then Err(vc.error)
    else
      var key := ParseShard(vc.rest);
      if key.Bad? then Err(key.error)
      else
        var rs := ParseCounted(ReplicaParser(), key.rest);
        if rs.Bad? then Err(rs.error) else Ok((vc.value, key.value, rs.value))
  }

  function FixedPart(val: Bytes): Meta
    requires |val| >= 24
  {
    Meta(FromInt64(val[0..8]), FromInt64(val[8..16]), FromInt64(val[16..24]), [], [], [])
  }

  ghost function ParseMeta(val: Bytes): Result<Meta> {
    if |val| == 24 then Ok(FixedPart(val))
    else if IsDecimal(val) then Ok(Meta(DecimalValue(val), 1, 0, [], [], []))
    else if |val| < 24 then Err(Ebadmsg)
    else
      var v := ParseVariable(val[24..]);
      if v.Err? then Err(v.error)
      else Ok(FixedPart(val).(vectorClock := v.value.0, shardKey := v.value.1, replicas := v.value.2))
  }

  // ---- round trip ----

  lemma {:induction false} NoDecimal(s: Bytes, i: nat)
    requires i < |s| && s[i] == 0
    ensures !IsDecimal(s)
  {
    var t := if s != [] && (s[0] == 43 || s[0] == 45) then s[1..] else s;
    if t != s {
      assert i > 0 && t[i - 1] == 0 && !IsDigit(t[i - 1]);
    } else {
      assert !IsDigit(t[i]);
    }
  }

  lemma {:induction false} CountedBack(vc: seq<uint64>, rest: Bytes)
    requires |vc| < TWO_32
    ensures ParseCounted(ClockParser(), ClockField(vc) + rest) == Done(vc, rest)
  {
    var s, w := ClockField(vc) + rest, WriteMany(ClockWriter(), vc, 0);
    assert s[..4] == Uint32(|vc|) && s[4..] == w + rest;
    RoundTrip32(|vc|);
    ClocksBack(vc, rest);
  }

  lemma {:induction false} ReplicaFieldBack(rs: seq<int32>)
    requires |rs| < TWO_32
    ensures ParseCounted(ReplicaParser(), ReplicaField(rs)) == Done(rs, [])
  {
    var s, w := ReplicaField(rs), WriteMany(ReplicaWriter(), rs, 0);
    assert s[..4] == Uint32(|rs|) && s[4..] == w + [];
    RoundTrip32(|rs|);
    ReplicasBack(rs, []);
  }

  lemma {:induction false} ShardBack(key: Bytes, rest: Bytes)
    requires |key| < TWO_32
    ensures ParseShard(ShardField(key) + rest) == Done(Zeros(|key|), key + rest)
  {
    var s, n := ShardField(key) + rest, |key|;
    assert s[..4] == Uint32(n) && s[4..4 + n] == Zeros(n) && s[4 + n..] == key + rest;
    RoundTrip32(n);
  }

  lemma {:induction false} FixedBack(m: Meta, rest: Bytes)
    ensures var s := Fixed(m) + rest;
      |s| >= 24 && s[24..] == rest && FixedPart(s) == Meta(m.size, m.refCount, m.deletedAt, [], [], [])
  {
    var s := Fixed(m) + rest;
    assert s[0..8] == Int64(m.size) && s[8..16] == Int64(m.refCount) && s[16..24] == Int64(m.deletedAt);
    RoundTripInt64(m.size);
    RoundTripInt64(m.refCount);
    RoundTripInt64(m.deletedAt);
  }

  lemma {:induction false} ZeroBytes()
    ensures Uint32(0) == [0, 0, 0, 0]
  {}

  /** The entry is neither 24 bytes long nor a decimal string. */
  lemma {:induction false} NotLegacy(m: Meta)
    requires |m.shardKey| < TWO_32
    ensures |MetaBytes(m)| > 24 && !IsDecimal(MetaBytes(m))
  {
    ZeroBytes();
    var s, at := MetaBytes(m), 24 + |ClockField(m.vectorClock)|;
    var shard := ShardField(m.shardKey);
    if m.shardKey == [] {
      assert s[at] == shard[0];
      NoDecimal(s, at);
    } else {
      assert s[at + 4] == shard[4] == Zeros(|m.shardKey|)[0];
      NoDecimal(s, at + 4);
    }
  }

  /** Size, count and deletion time, the clock and the replicas behind their lengths, and
      between them the shard key behind its length and as many zero bytes. */
  lemma {:induction false} MetaLayout(m: Meta)
    requires |m.vectorClock| < TWO_32 && |m.shardKey| < TWO_32 && |m.replicas| < TWO_32
    ensures MetaBytes(m) ==
            Int64(m.size) + Int64(m.refCount) + Int64(m.deletedAt)
              + Uint32(|m.vectorClock|) + WriteMany(ClockWriter(), m.vectorClock, 0)
              + Uint32(|m.shardKey|) + Zeros(|m.shardKey|) + m.shardKey
              + Uint32(|m.replicas|) + WriteMany(ReplicaWriter(), m.replicas, 0)
  {}

  // ---- the legacy forms ----

  /** A 24-byte record decodes to its three numbers. */
  lemma {:induction false} LegacyRecord(size: int64, refCount: int64, deletedAt: int64)
    ensures ParseMeta(Int64(size) + Int64(refCount) + Int64(deletedAt)) ==
            Ok(Meta(size, refCount, deletedAt, [], [], []))
  {
    var m := Meta(size, refCount, deletedAt, [], [], []);
    FixedBack(m, []);
    assert Fixed(m) + [] == Fixed(m);
  }

  /** The digits of a number, most significant first. */
  function DecimalDigits(n: nat): (s: Bytes)
    ensures s != [] && AllDigits(s)
  {
    if n < 10 then [48 + n] else DecimalDigits(n / 10) + [48 + n % 10]
  }

  function DecimalText(v: int): Bytes {
    if v < 0 then [45] + DecimalDigits(-v) else DecimalDigits(v)
  }

  lemma {:induction false} DigitsBack(n: nat)
    ensures Digits(DecimalDigits(n)) == n
  {
    var s := DecimalDigits(n);
    if n < 10 {
      assert s[..|s| - 1] == [];
      assert Digits([]) == 0;
    } else {
      DigitsBack(n / 10);
      assert s[..|s| - 1] == DecimalDigits(n / 10);
    }
  }

  function PowerOfTen(k: nat): nat {
    if k == 0 then 1 else 10 * PowerOfTen(k - 1)
  }

  lemma {:induction false} DigitCount(n: nat, k: nat)
    requires k > 0 && n < PowerOfTen(k)
    ensures |DecimalDigits(n)| <= k
  {
    if n >= 10 {
      DigitCount(n / 10, k - 1);
    }
  }

  /** A decimal string decodes to the size it names, with one reference. */
  lemma {:induction false} LegacyDecimal(size: int64)
    ensures ParseMeta(DecimalText(size)) == Ok(Meta(size, 1, 0, [], [], []))
  {
    var n: nat := if size < 0 then -(size as int) else size;
    var t := DecimalDigits(n);
    DigitsBack(n);
    assert PowerOfTen(5) == 10_0000 && PowerOfTen(10) == 100_0000_0000 && PowerOfTen(15) == 1000_0000_0000_0000;
    assert PowerOfTen(19) == 1000_0000_0000_0000_0000;
    DigitCount(n, 19);
    if size < 0 {
      assert DecimalText(size)[1..] == t;
    } else {
      assert IsDigit(t[0]);
    }
  }

  /** What an entry decodes to, up to the misplaced shard key. */
  lemma {:induction false} MetaParts(m: Meta)
    requires |m.vectorClock| < TWO_32 && |m.shardKey| < TWO_32
    ensures var rs := ParseCounted(ReplicaParser(), m.shardKey + ReplicaField(m.replicas));
      ParseMeta(MetaBytes(m)) == if rs.Bad? then Err(rs.error)
          else Ok(m.(shardKey := Zeros(|m.shardKey|), replicas := rs.value))
  {
    var tail := ShardField(m.shardKey) + ReplicaField(m.replicas);
    NotLegacy(m);
    FixedBack(m, ClockField(m.vectorClock) + tail);
    CountedBack(m.vectorClock, tail);
    ShardBack(m.shardKey, ReplicaField(m.replicas));
  }

  lemma {:induction false} ManyLength<T>(p: Parser<T>, s: Bytes, n: nat)
    requires IsParser(p)
    ensures ParseMany(p, s, n).Done? ==> |ParseMany(p, s, n).value| == n
    decreases n
  {
    if n > 0 && p[s].Done? {
      ManyLength(p, p[s].rest, n - 1);
    }
  }

  /** A count read one or more zero bytes too early is less than it was. */
  lemma {:induction false} EarlyCount(n: nat, v: uint32, rest: Bytes)
    requires n > 0
    ensures var s := Zeros(n) + (Uint32(v) + rest);
      FromUint32(s[..4]) <= v && (v > 0 ==> FromUint32(s[..4]) < v)
  {
    var s := Zeros(n) + (Uint32(v) + rest);
    var h, l := v / TWO_16, v % TWO_16;
    var b := Uint32(v);
    assert b == [h / 256, h % 256, l / 256, l % 256];
    if n >= 4 {
      assert s[..4] == Zeros(n)[..4];
      assert s[..4][..2] == [0, 0] && s[..4][2..] == [0, 0];
    } else if n == 3 {
      assert s[..4][..2] == [0, 0] && s[..4][2..] == [0, b[0]];
    } else if n == 2 {
      assert s[..4][..2] == [0, 0] && s[..4][2..] == [b[0], b[1]];
    } else {
      assert s[..4][..2] == [0, b[0]] && s[..4][2..] == [b[1], b[2]];
    }
  }

  /** With an empty shard key an entry comes back; with another one exactly if
      the key is all zero bytes and there are no replicas. */
  lemma {:induction false} MetaRoundTrip(m: Meta)
    requires |m.vectorClock| < TWO_32 && |m.shardKey| < TWO_32 && |m.replicas| < TWO_32
    ensures ParseMeta(MetaBytes(m)) == Ok(m) <==>
      m.shardKey == [] || (m.shardKey == Zeros(|m.shardKey|) && m.replicas == [])
  {
    MetaParts(m);
    var key, rs := m.shardKey, ReplicaField(m.replicas);
    if key == [] {
      assert key + rs == rs;
      ReplicaFieldBack(m.replicas);
    } else if key == Zeros(|key|) {
      var w := WriteMany(ReplicaWriter(), m.replicas, 0);
      EarlyCount(|key|, |m.replicas|, w);
      ManyLength(ReplicaParser(), (key + rs)[4..], FromUint32((key + rs)[..4]));
    }
  }

  // ---- the code ----

  method Encode(m: Meta) returns (buf: Bytes)
    ensures buf == MetaBytes(m)
  {
    buf := Int64(m.size) + Int64(m.refCount) + Int64(m.deletedAt);
    var vcBuf := WriteClocks(m.vectorClock);
    buf := buf + vcBuf;
    var skLen := |m.shardKey|;
    var skBuf := Uint32(Low32(skLen)) + Zeros(skLen);
    buf := buf + skBuf;
    buf := buf + m.shardKey;
    var mrBuf := WriteReplicas(m.replicas);
    buf := buf + mrBuf;
    Regrouped(m, vcBuf, mrBuf);
  }

  lemma {:induction false} Regrouped(m: Meta, vc: Bytes, mr: Bytes)
    requires vc == ClockField(m.vectorClock) && mr == ReplicaField(m.replicas)
    ensures Fixed(m) + vc + (Uint32(Low32(|m.shardKey|)) + Zeros(|m.shardKey|)) + m.shardKey + mr == MetaBytes(m)
  {}

  method WriteClocks(vc: seq<uint64>) returns (out: Bytes)
    ensures out == ClockField(vc)
  {
    out := Uint32(Low32(|vc|));
    ghost var w := ClockWriter();
    for i := 0 to |vc|
      invariant out + WriteMany(w, vc, i) == ClockField(vc)
    {
      ghost var before, rest := out, WriteMany(w, vc, i + 1);
      out := out + Uint64(vc[i]);
      assert before + (Uint64(vc[i]) + rest) == (before + Uint64(vc[i])) + rest;
    }
    assert out + [] == out;
  }

  method WriteReplicas(rs: seq<int32>) returns (out: Bytes)
    ensures out == ReplicaField(rs)
  {
    out := Uint32(Low32(|rs|));
    ghost var w := ReplicaWriter();
    for i := 0 to |rs|
      invariant out + WriteMany(w, rs, i) == ReplicaField(rs)
    {
      ghost var before, rest := out, WriteMany(w, rs, i + 1);
      out := out + Int32(rs[i]);
      assert before + (Int32(rs[i]) + rest) == (before + Int32(rs[i])) + rest;
    }
    assert out + [] == out;
  }

  method Decode(val: Bytes) returns (r: Result<Meta>)
    ensures r == ParseMeta(val)
  {
    if |val| == 24 {
      return Ok(FixedPart(val));
    }
    if IsDecimal(val) {
      return Ok(Meta(DecimalValue(val), 1, 0, [], [], []));
    }
    if |val| < 24 {
      return Err(Ebadmsg);
    }
    var m := FixedPart(val);
    var v := ReadVariable(val, 24);
    if v.Err? {
      return Err(v.error);
    }
    r := Ok(m.(vectorClock := v.value.0, shardKey := v.value.1, replicas := v.value.2));
  }

  method ReadVariable(val: Bytes, at: nat) returns (r: Result<(seq<uint64>, Bytes, seq<int32>)>)
    requires at <= |val|
    ensures r == ParseVariable(val[at..])
  {
    var vc, off := ReadClocks(val, at);
    if vc.Err? {
      return Err(vc.error);
    }
    var shardKey: Result<Bytes>;
    shardKey, off := ReadShard(val, off);
    if shardKey.Err? {
      return Err(shardKey.error);
    }
    var rs := ReadReplicas(val, off);
    if rs.Err? {
      return Err(rs.error);
    }
    r := Ok((vc.value, shardKey.value, rs.value));
  }

  method ReadShard(val: Bytes, at: nat) returns (r: Result<Bytes>, off: nat)
    requires at <= |val|
    ensures match r
      case Ok(key) => off <= |val| && ParseShard(val[at..]) == Done(key, val[off..])
      case Err(e) => ParseShard(val[at..]) == Bad(e)
  {
    off := at;
    if |val| < off + 4 {
      return Err(Ebadmsg), off;
    }
    ghost var s := val[at..];
    assert s[..4] == val[at..at + 4];
    var n := FromUint32(val[off..off + 4]) as int;
    off := off + 4;
    if |val| < off + n {
      return Err(Ebadmsg), off;
    }
    r := Ok(val[off..off + n]);
    assert s[4..4 + n] == val[off..off + n];
    off := off + n;
    assert s[4 + n..] == val[off..];
  }

  method ReadClocks(val: Bytes, at: nat) returns (r: Result<seq<uint64>>, off: nat)
    requires at <= |val|
    ensures match r
      case Ok(vc) => off <= |val| && ParseCounted(ClockParser(), val[at..]) == Done(vc, val[off..])
      case Err(e) => ParseCounted(ClockParser(), val[at..]) == Bad(e)
  {
    off := at;
    if |val| < off + 4 {
      return Err(Ebadmsg), off;
    }
    assert val[at..][..4] == val[at..at + 4] && val[at..][4..] == val[at + 4..];
    var vcLen := FromUint32(val[off..off + 4]) as int;
    r, off := ReadClockValues(ClockParser(), val, off + 4, vcLen);
  }

  method ReadClockValues(ghost p: Parser<uint64>, val: Bytes, at: nat, n: nat)
    returns (r: Result<seq<uint64>>, off: nat)
    requires p == ClockParser() && at <= |val|
    ensures match r
      case Ok(vc) => off <= |val| && ParseMany(p, val[at..], n) == Done(vc, val[off..])
      case Err(e) => ParseMany(p, val[at..], n) == Bad(e)
  {
    off := at;
    ghost var all := ParseMany(p, val[at..], n);
    var vc: seq<uint64> := [];
    AfterNone(all);
    for i := 0 to n
      invariant off <= |val| && After(vc, ParseMany(p, val[off..], n - i)) == all
    {
      if |val| < off + 8 {
        return Err(Ebadmsg), off;
      }
      assert val[off..][..8] == val[off..off + 8] && val[off..][8..] == val[off + 8..];
      ParseOne(p, val[off..], n - i, vc);
      vc, off := vc + [FromUint64(val[off..off + 8])], off + 8;
    }
    assert vc + [] == vc;
    r := Ok(vc);
  }

  method ReadReplicas(val: Bytes, at: nat) returns (r: Result<seq<int32>>)
    requires at <= |val|
    ensures var m := ParseCounted(ReplicaParser(), val[at..]); r == if m.Bad? then Err(m.error) else Ok(m.value)
  {
    if |val| < at + 4 {
      return Err(Ebadmsg);
    }
    ghost var p := ReplicaParser();
    assert val[at..][..4] == val[at..at + 4] && val[at..][4..] == val[at + 4..];
    var mrLen := FromUint32(val[at..at + 4]) as int;
    var off := at + 4;
    ghost var all := ParseMany(p, val[off..], mrLen);
    var rs: seq<int32> := [];
    AfterNone(all);
    for i := 0 to mrLen
      invariant off <= |val| && After(rs, ParseMany(p, val[off..], mrLen - i)) == all
    {
      if |val| < off + 4 {
        return Err(Ebadmsg);
      }
      assert val[off..][..4] == val[off..off + 4] && val[off..][4..] == val[off + 4..];
      ParseOne(p, val[off..], mrLen - i, rs);
      rs, off := rs + [FromInt32(val[off..off + 4])], off + 4;
    }
    assert rs + [] == rs;
    r := Ok(rs);
  }
}
