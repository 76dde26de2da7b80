module Stream {

  // The chunked streaming AEAD of src/crypto/streaming.go, format version 4.
  //
  // AES-256-GCM is an ideal AEAD in the sense of section 2 of RFC 5116: sealing is
  // a table, and opening succeeds exactly on what was sealed under the same nonce
  // and additional data. Randomness (the seed) is a parameter; readers and writers
  // are byte sequences.

  import opened Bytes

  datatype Option<+T> = None | Some(value: T)

  const CHUNK_SIZE := 4096
  const MIN_CHUNK_SIZE := 512
  const CHUNK_HEADER := 4
  const NONCE_SIZE := 12
  const TAG_SIZE := 16
  const MAX_CHUNK_SIZE := CHUNK_SIZE + CHUNK_HEADER + NONCE_SIZE + TAG_SIZE
  const STREAM_VERSION: byte := 4
  const SEED_SIZE := 8
  const FOOTER_NONCE_INDEX: uint32 := 0xFFFF_FFFF

  /** The additional data of footers; data chunks have none. */
  const FOOTER_AAD: Bytes := [109, 111, 109, 111, 58, 115, 116, 114, 101, 97, 109, 45, 102, 111, 111, 116, 101, 114, 58,
      118, 49]

  // ---- the ideal AEAD ----

  /** One sealing: nonce, additional data and plaintext. */
  datatype Box = Box(nonce: Bytes, aad: Bytes, plain: Bytes)

  datatype Sealed = Sealed(nonce: Bytes, aad: Bytes, text: Bytes)

  datatype Aead = Aead(seal: imap<Box, Bytes>, open: imap<Sealed, Option<Bytes>>)

  /** `issued` are the sealings done under the key: each opens to its plaintext,
      nothing else opens, and no two of them look the same. */
  ghost predicate Ideal(a: Aead, issued: iset<Box>) {
    && (forall b :: b in a.seal && |a.seal[b]| == |b.plain| + TAG_SIZE)
    && (forall s :: s in a.open)
    && (forall b <- issued :: a.open[Sealed(b.nonce, b.aad, a.seal[b])] == Some(b.plain))
    && (forall s :: a.open[s].Some? ==> Authentic(a, issued, s))
    && (forall b, c :: b in issued && c in issued && a.seal[b] == a.seal[c] ==> b == c)
  }

  ghost predicate Authentic(a: Aead, issued: iset<Box>, s: Sealed)
    requires s in a.open && a.open[s].Some?
  {
    var b := Box(s.nonce, s.aad, a.open[s].value);
    b in issued && b in a.seal && a.seal[b] == s.text
  }

  // ---- the format ----

  function Nonce(seed: Bytes, index: uint32): Bytes {
    seed + Uint32(index)
  }

  /** The plaintext in pieces of `chunk` bytes, the last one shorter if need be. */
  function Chunks(plain: Bytes, chunk: nat): (cs: seq<Bytes>)
    requires chunk > 0
    ensures forall i :: 0 <= i < |cs| ==> 0 < |cs[i]| <= chunk && |cs[i]| <= |plain|
    ensures plain != [] ==> cs != [] && |cs[0]| == if |plain| < chunk then |plain| else chunk
  {
    if plain == [] then [] else if |plain| <= chunk then [plain] else [plain[..chunk]] + Chunks(plain[chunk..], chunk)
  }

  /** The chunks from `i` up to `m`, joined. */
  function Joined(cs: seq<Bytes>, i: nat, m: nat): Bytes
    requires i <= m <= |cs|
    decreases m - i
  {
    if i == m then [] else cs[i] + Joined(cs, i + 1, m)
  }

  /** A chunk count or index as the 32-bit variable holds it. */
  function Wrapped(i: nat): (w: uint32)
    ensures i < TWO_32 ==> w == i
  {
    if i < TWO_32 then i else Wrapped(i - TWO_32)
  }

  function DataBox(seed: Bytes, cs: seq<Bytes>, i: nat): Box
    requires i < |cs|
  {
    Box(Nonce(seed, Wrapped(i)), [], cs[i])
  }

  function FooterBox(seed: Bytes, count: nat): Box {
    Box(Nonce(seed, FOOTER_NONCE_INDEX), FOOTER_AAD, Uint32(Wrapped(count)))
  }

  /** A sealed text behind its length. */
  function Frame(text: Bytes): Bytes {
    Uint32(Low32(|text|)) + text
  }

  ghost predicate Total(a: Aead) {
    (forall b :: b in a.seal) && forall s :: s in a.open
  }

  /** The frames of the chunks from `i` up to `m`, and the footer. */
  function Frames(a: Aead, seed: Bytes, cs: seq<Bytes>, i: nat, m: nat): Bytes
    requires i <= m <= |cs| && Total(a)
    decreases m - i
  {
    if i == m then Frame(a.seal[FooterBox(seed, |cs|)])
    else Frame(a.seal[DataBox(seed, cs, i)]) + Frames(a, seed, cs, i + 1, m)
  }

  /** The configured size where it is allowed, and the usual one otherwise. */
  function EffectiveChunk(chunkSize: int): (c: nat)
    ensures MIN_CHUNK_SIZE <= c <= MAX_CHUNK_SIZE
    ensures MIN_CHUNK_SIZE <= chunkSize <= MAX_CHUNK_SIZE ==> c == chunkSize
    ensures !(MIN_CHUNK_SIZE <= chunkSize <= MAX_CHUNK_SIZE) ==> c == CHUNK_SIZE
  {
    if chunkSize < MIN_CHUNK_SIZE || chunkSize > MAX_CHUNK_SIZE then CHUNK_SIZE else chunkSize
  }

  function Header(chunk: uint16, seed: Bytes): Bytes {
    [STREAM_VERSION] + Uint16(chunk) + seed
  }

  /** What EncryptStream writes. */
  function Encrypted(a: Aead, chunkSize: int, seed: Bytes, plain: Bytes): Bytes
    requires Total(a)
  {
    var chunk := EffectiveChunk(chunkSize);
    var cs := Chunks(plain, chunk);
    Header(chunk, seed) + Frames(a, seed, cs, 0, |cs|)
  }

  /** Each chunk is sealed without additional data under the seed and its index, and
      the count under the footer's index and additional data. */
  lemma {:induction false} FramesAre(a: Aead, seed: Bytes, cs: seq<Bytes>, i: nat, m: nat)
    requires Total(a) && i <= m <= |cs| < TWO_32
    ensures Frames(a, seed, cs, i, m) ==
            if i < m then
              var sealed := a.seal[Box(seed + Uint32(i), [], cs[i])];
              Uint32(Low32(|sealed|)) + sealed + Frames(a, seed, cs, i + 1, m)
            else
              var sealed := a.seal[Box(seed + Uint32(0xFFFF_FFFF), FOOTER_AAD, Uint32(|cs|))];
              Uint32(Low32(|sealed|)) + sealed
  {}

  // ---- the decoder as a function ----

  datatype Status = Ok | ReadFailed | Truncated | BadFormat | Tampered | Legacy

  datatype Outcome = Outcome(status: Status, emitted: Bytes)

  /** What the decoder does with the footer it may have found. */
  function Footer(a: Aead, seed: Bytes, text: Bytes, index: uint32): Status
    requires Total(a)
  {
    var r := a.open[Sealed(Nonce(seed, FOOTER_NONCE_INDEX), FOOTER_AAD, text)];
    if r.None? then Tampered
    else if |r.value| != 4 || FromUint32(r.value) != index then BadFormat
    else Ok
  }

  /** The 32-bit chunk index wraps. */
  function Incremented(index: uint32): uint32 {
    if index as int + 1 == TWO_32 then 0 else index + 1
  }

  function Decode(a: Aead, seed: Bytes, body: Bytes, index: uint32): Outcome
    requires Total(a)
    decreases |body|
  {
    if |body| < CHUNK_HEADER then Outcome(if body == [] then Truncated else ReadFailed, [])
    else
      var n := FromUint32(body[..4]);
      if n > MAX_CHUNK_SIZE || n == 0 then Outcome(BadFormat, [])
      else if |body| < 4 + n then Outcome(ReadFailed, [])
      else
        var text := body[4..4 + n];
        var r := a.open[Sealed(Nonce(seed, index), [], text)];
        if r.Some? then
          var rest := Decode(a, seed, body[4 + n..], Incremented(index));
          Outcome(rest.status, r.value + rest.emitted)
        else Outcome(Footer(a, seed, text, index), [])
  }

  /** decryptStreamV4, behind the version byte. */
  function DecodeV4(a: Aead, input: Bytes): Outcome
    requires Total(a)
  {
    if |input| < SEED_SIZE + 2 then Outcome(ReadFailed, [])
    else
      var declared := FromUint16(input[..2]);
      if declared < MIN_CHUNK_SIZE || declared > MAX_CHUNK_SIZE then Outcome(BadFormat, [])
      else Decode(a, input[2..2 + SEED_SIZE], input[2 + SEED_SIZE..], 0)
  }

  /** DecryptStream; versions 2 and 3 go to older decoders, which are left out. */
  function Decrypted(a: Aead, input: Bytes): Outcome
    requires Total(a)
  {
    if input == [] then Outcome(ReadFailed, [])
    else if input[0] == STREAM_VERSION then DecodeV4(a, input[1..])
    else if input[0] == 3 || input[0] == 2 then Outcome(Legacy, [])
    else Outcome(BadFormat, [])
  }

  // ---- frames are parsed back ----

  lemma {:induction false} ParseFrame(text: Bytes, rest: Bytes)
    requires |text| < TWO_32
    ensures var body := Frame(text) + rest;
      && |body| >= 4 + |text| && FromUint32(body[..4]) == |text|
      && body[4..4 + |text|] == text && body[4 + |text|..] == rest
  {
    var body := Frame(text) + rest;
    assert body[..4] == Uint32(Low32(|text|));
    RoundTrip32(|text|);
  }

  /** The other way: what reads as a frame starts with that frame. */
  lemma {:induction false} FrameIsPrefix(body: Bytes, n: nat)
    requires |body| >= 4 + n && FromUint32(body[..4]) == n
    ensures body == Frame(body[4..4 + n]) + body[4 + n..]
  {
    Unique32(body[..4]);
    assert body == body[..4] + body[4..4 + n] + body[4 + n..];
  }

  // ---- what an accepted stream must be ----

  /** Everything sealed under this seed belongs to this stream, and all of it was sealed. */
  ghost predicate Owns(issued: iset<Box>, seed: Bytes, cs: seq<Bytes>) {
    && |seed| == SEED_SIZE
    && (forall i :: 0 <= i < |cs| ==> DataBox(seed, cs, i) in issued)
    && FooterBox(seed, |cs|) in issued
    && (forall b <- issued :: Seeded(b, seed) ==>
        b == FooterBox(seed, |cs|) || exists i :: 0 <= i < |cs| && b == DataBox(seed, cs, i))
  }

  ghost predicate Seeded(b: Box, seed: Bytes) {
    |b.nonce| == NONCE_SIZE && b.nonce[..SEED_SIZE] == seed
  }

  lemma {:induction false} SameNonce(seed: Bytes, i: uint32, j: uint32)
    requires |seed| == SEED_SIZE && Nonce(seed, i) == Nonce(seed, j)
    ensures i == j
  {
    assert Nonce(seed, i)[SEED_SIZE..] == Uint32(i) && Nonce(seed, j)[SEED_SIZE..] == Uint32(j);
    RoundTrip32(i);
    RoundTrip32(j);
  }

  lemma {:induction false} NonceSeeded(seed: Bytes, i: uint32)
    requires |seed| == SEED_SIZE
    ensures |Nonce(seed, i)| == NONCE_SIZE && Nonce(seed, i)[..SEED_SIZE] == seed
  {}

  /** The sealings under chunk `i`'s nonce without additional data are of chunk `i`. */
  lemma {:induction false} OwnBox(issued: iset<Box>, seed: Bytes, cs: seq<Bytes>, i: nat, b: Box)
    requires Owns(issued, seed, cs) && i <= |cs| < TWO_32 && b in issued && b.nonce == Nonce(seed, i) && b.aad == []
    ensures i < |cs| && b == DataBox(seed, cs, i)
  {
    NonceSeeded(seed, i);
    assert Seeded(b, seed);
    assert FooterBox(seed, |cs|).aad != [];
    var j :| 0 <= j < |cs| && b == DataBox(seed, cs, j);
    SameNonce(seed, i, j);
  }

  /** With fewer than 2^32 chunks, what opens as chunk `i` is chunk `i`. */
  lemma {:induction false} OpensOwnChunk(a: Aead, issued: iset<Box>, seed: Bytes, cs: seq<Bytes>, i: nat, text: Bytes)
    requires Ideal(a, issued) && Owns(issued, seed, cs) && i <= |cs| < TWO_32
    ensures var r := a.open[Sealed(Nonce(seed, i), [], text)];
      r.Some? ==> i < |cs| && r.value == cs[i] && text == a.seal[DataBox(seed, cs, i)]
  {
    var s := Sealed(Nonce(seed, i), [], text);
    if a.open[s].Some? {
      assert Authentic(a, issued, s);
      OwnBox(issued, seed, cs, i, Box(s.nonce, [], a.open[s].value));
    }
  }

  /** What opens as a footer is the footer. */
  lemma {:induction false} OpensOwnFooter(a: Aead, issued: iset<Box>, seed: Bytes, cs: seq<Bytes>, text: Bytes)
    requires Ideal(a, issued) && Owns(issued, seed, cs)
    ensures var r := a.open[Sealed(Nonce(seed, FOOTER_NONCE_INDEX), FOOTER_AAD, text)];
      r.Some? ==> r.value == Uint32(Wrapped(|cs|)) && text == a.seal[FooterBox(seed, |cs|)]
  {
    var s := Sealed(Nonce(seed, FOOTER_NONCE_INDEX), FOOTER_AAD, text);
    if a.open[s].Some? {
      assert Authentic(a, issued, s);
      var b := Box(s.nonce, FOOTER_AAD, a.open[s].value);
      NonceSeeded(seed, FOOTER_NONCE_INDEX);
      assert Seeded(b, seed);
      forall i | 0 <= i < |cs| ensures b != DataBox(seed, cs, i) {
        assert b.aad != DataBox(seed, cs, i).aad;
      }
    }
  }

  /** One turn of the decoder's loop that opens a data chunk. */
  lemma {:induction false} DecodeData(a: Aead, seed: Bytes, text: Bytes, rest: Bytes, index: uint32)
    requires Total(a) && 0 < |text| <= MAX_CHUNK_SIZE
    ensures var r, next := a.open[Sealed(Nonce(seed, index), [], text)], Decode(a, seed, rest, Incremented(index));
      r.Some? ==> Decode(a, seed, Frame(text) + rest, index) == Outcome(next.status, r.value + next.emitted)
  {
    ParseFrame(text, rest);
  }

  /** One turn that does not. */
  lemma {:induction false} DecodeFooter(a: Aead, seed: Bytes, text: Bytes, rest: Bytes, index: uint32)
    requires Total(a) && 0 < |text| <= MAX_CHUNK_SIZE && a.open[Sealed(Nonce(seed, index), [], text)].None?
    ensures Decode(a, seed, Frame(text) + rest, index) == Outcome(Footer(a, seed, text, index), [])
  {
    ParseFrame(text, rest);
  }

  ghost predicate Faithful(a: Aead, seed: Bytes, cs: seq<Bytes>, body: Bytes, i: nat, r: Outcome)
    requires Total(a) && i <= |cs|
  {
    && r.emitted <= Joined(cs, i, |cs|)
    && (r.status == Ok ==> r.emitted == Joined(cs, i, |cs|) && Frames(a, seed, cs, i, |cs|) <= body)
  }

  lemma {:induction false} FaithfulData(a: Aead, seed: Bytes, cs: seq<Bytes>, rest: Bytes, i: nat, next: Outcome)
    requires Total(a) && i < |cs| && Faithful(a, seed, cs, rest, i + 1, next)
    ensures Faithful(a, seed, cs, Frame(a.seal[DataBox(seed, cs, i)]) + rest, i,
            Outcome(next.status, cs[i] + next.emitted))
  {}

  lemma {:induction false} FaithfulFooter(a: Aead, issued: iset<Box>, seed: Bytes, cs: seq<Bytes>, text: Bytes,
                                          rest: Bytes, i: nat)
    requires Ideal(a, issued) && Owns(issued, seed, cs) && i <= |cs| < TWO_32
    ensures Faithful(a, seed, cs, Frame(text) + rest, i, Outcome(Footer(a, seed, text, i), []))
  {
    OpensOwnFooter(a, issued, seed, cs, text);
    RoundTrip32(|cs|);
  }

  /** Whatever bytes follow a stream's header and seed: the decoder succeeds only
      if they begin with the stream's own frames and footer, and then it has
      emitted the whole plaintext; otherwise what it emitted is a prefix of it. */
  lemma {:induction false} OnlyWholeStream(a: Aead, issued: iset<Box>, seed: Bytes, cs: seq<Bytes>, body: Bytes, i: nat)
    requires Ideal(a, issued) && Owns(issued, seed, cs) && i <= |cs| < TWO_32
    ensures Faithful(a, seed, cs, body, i, Decode(a, seed, body, i))
    decreases |body|
  {
    if |body| >= 4 {
      var n := FromUint32(body[..4]);
      if 0 < n <= MAX_CHUNK_SIZE && |body| >= 4 + n {
        var text, rest := body[4..4 + n], body[4 + n..];
        FrameIsPrefix(body, n);
        WholeFrame(a, issued, seed, cs, text, rest, i);
      }
    }
  }

  lemma {:induction false} DecodeNext(a: Aead, seed: Bytes, text: Bytes, rest: Bytes, index: uint32, v: Bytes)
    requires Total(a) && 0 < |text| <= MAX_CHUNK_SIZE && index + 1 < TWO_32 &&
             a.open[Sealed(Nonce(seed, index), [], text)] == Some(v)
    ensures var next := Decode(a, seed, rest, index + 1);
      Decode(a, seed, Frame(text) + rest, index) == Outcome(next.status, v + next.emitted)
  {
    DecodeData(a, seed, text, rest, index);
  }

  lemma {:induction false} WholeFrame(a: Aead, issued: iset<Box>, seed: Bytes, cs: seq<Bytes>, text: Bytes, rest: Bytes,
                                      i: nat)
    requires Ideal(a, issued) && Owns(issued, seed, cs) && i <= |cs| < TWO_32 && 0 < |text| <= MAX_CHUNK_SIZE
    ensures Faithful(a, seed, cs, Frame(text) + rest, i, Decode(a, seed, Frame(text) + rest, i))
    decreases |rest| + 1
  {
    var r := a.open[Sealed(Nonce(seed, i), [], text)];
    if r.Some? {
      OpensOwnChunk(a, issued, seed, cs, i, text);
      DecodeNext(a, seed, text, rest, i, cs[i]);
      OnlyWholeStream(a, issued, seed, cs, rest, i + 1);
      FaithfulData(a, seed, cs, rest, i, Decode(a, seed, rest, i + 1));
    } else {
      DecodeFooter(a, seed, text, rest, i);
      FaithfulFooter(a, issued, seed, cs, text, rest, i);
    }
  }

  // ---- what is accepted ----

  /** All of the stream was sealed. */
  ghost predicate Issues(issued: iset<Box>, seed: Bytes, cs: seq<Bytes>) {
    (forall i :: 0 <= i < |cs| ==> DataBox(seed, cs, i) in issued) && FooterBox(seed, |cs|) in issued
  }

  lemma {:induction false} WrappedNext(i: nat)
    ensures Wrapped(i + 1) == Incremented(Wrapped(i))
  {
    if i >= TWO_32 {
      WrappedNext(i - TWO_32);
    }
  }

  /** A footer does not open as data, whatever the index. */
  lemma {:induction false} FooterIsNoChunk(a: Aead, issued: iset<Box>, seed: Bytes, count: nat, index: uint32)
    requires Ideal(a, issued) && FooterBox(seed, count) in issued
    ensures a.open[Sealed(Nonce(seed, index), [], a.seal[FooterBox(seed, count)])].None?
  {
    assert FooterBox(seed, count).aad != [];
  }

  lemma {:induction false} FooterCounts(a: Aead, issued: iset<Box>, seed: Bytes, count: nat, index: uint32)
    requires Ideal(a, issued) && FooterBox(seed, count) in issued
    ensures Footer(a, seed, a.seal[FooterBox(seed, count)], index) == if index == Wrapped(count) then Ok else BadFormat
  {
    RoundTrip32(Wrapped(count));
    assert Wrapped(Wrapped(count)) == Wrapped(count);
  }

  lemma {:induction false} DecodeOwnChunk(a: Aead, issued: iset<Box>, seed: Bytes, cs: seq<Bytes>, i: nat, rest: Bytes)
    requires Ideal(a, issued) && i < |cs| && DataBox(seed, cs, i) in issued && |cs[i]| + TAG_SIZE <= MAX_CHUNK_SIZE
    ensures var next := Decode(a, seed, rest, Wrapped(i + 1));
      Decode(a, seed, Frame(a.seal[DataBox(seed, cs, i)]) + rest, Wrapped(i)) ==
          Outcome(next.status, cs[i] + next.emitted)
  {
    WrappedNext(i);
    DecodeData(a, seed, a.seal[DataBox(seed, cs, i)], rest, Wrapped(i));
  }

  lemma {:induction false} DecodeOwnFooter(a: Aead, issued: iset<Box>, seed: Bytes, count: nat, junk: Bytes, m: nat)
    requires Ideal(a, issued) && FooterBox(seed, count) in issued
    ensures Decode(a, seed, Frame(a.seal[FooterBox(seed, count)]) + junk, Wrapped(m)) ==
      Outcome(if Wrapped(m) == Wrapped(count) then Ok else BadFormat, [])
  {
    FooterIsNoChunk(a, issued, seed, count, Wrapped(m));
    DecodeFooter(a, seed, a.seal[FooterBox(seed, count)], junk, Wrapped(m));
    FooterCounts(a, issued, seed, count, Wrapped(m));
  }

  /** The decoder takes the sealed chunk. */
  predicate Fits(chunk: Bytes) {
    |chunk| + TAG_SIZE <= MAX_CHUNK_SIZE
  }

  /** The stream was sealed, in chunks that the decoder takes. */
  ghost predicate Decodable(a: Aead, issued: iset<Box>, seed: Bytes, cs: seq<Bytes>) {
    Ideal(a, issued) && Total(a) && Issues(issued, seed, cs) && forall i :: 0 <= i < |cs| ==> Fits(cs[i])
  }

  /** Whether a footer for `count` chunks passes after `m` of them. */
  function Verdict(m: nat, count: nat): Status {
    if Wrapped(m) == Wrapped(count) then Ok else BadFormat
  }

  /** The frames from `i` up to `m` and the footer decode to their chunks, with
      the verdict on the footer. */
  ghost predicate CutsTo(a: Aead, seed: Bytes, cs: seq<Bytes>, i: nat, m: nat, junk: Bytes) {
    Total(a) && i <= m <= |cs| ==>
      Decode(a, seed, Frames(a, seed, cs, i, m) + junk, Wrapped(i)) == Outcome(Verdict(m, |cs|), Joined(cs, i, m))
  }

  lemma {:induction false} CutHere(a: Aead, issued: iset<Box>, seed: Bytes, cs: seq<Bytes>, m: nat, junk: Bytes)
    requires Decodable(a, issued, seed, cs) && m <= |cs|
    ensures CutsTo(a, seed, cs, m, m, junk)
  {
    DecodeOwnFooter(a, issued, seed, |cs|, junk, m);
  }

  lemma {:induction false} CutLater(a: Aead, issued: iset<Box>, seed: Bytes, cs: seq<Bytes>, i: nat, m: nat,
                                    junk: Bytes)
    requires Decodable(a, issued, seed, cs) && i < m <= |cs| && CutsTo(a, seed, cs, i + 1, m, junk)
    ensures CutsTo(a, seed, cs, i, m, junk)
  {
    var frame, rest := Frame(a.seal[DataBox(seed, cs, i)]), Frames(a, seed, cs, i + 1, m);
    assert (frame + rest) + junk == frame + (rest + junk);
    DecodeOwnChunk(a, issued, seed, cs, i, rest + junk);
  }

  /** Keeping the first `m` frames and the footer: the frames decode, and the
      footer is accepted exactly if the number of dropped frames is a multiple
      of 2^32. Bytes behind the footer are not looked at. */
  lemma {:induction false} CutStream(a: Aead, issued: iset<Box>, seed: Bytes, cs: seq<Bytes>, i: nat, m: nat,
                                     junk: Bytes)
    requires Decodable(a, issued, seed, cs) && i <= m <= |cs|
    ensures CutsTo(a, seed, cs, i, m, junk)
    decreases m - i
  {
    if i == m {
      CutHere(a, issued, seed, cs, m, junk);
    } else {
      CutStream(a, issued, seed, cs, i + 1, m, junk);
      CutLater(a, issued, seed, cs, i, m, junk);
    }
  }

  /** A chunk of more than 4112 bytes seals to more than the decoder takes. */
  lemma {:induction false} BigChunk(a: Aead, issued: iset<Box>, seed: Bytes, cs: seq<Bytes>, i: nat)
    requires Ideal(a, issued) && i < |cs| && MAX_CHUNK_SIZE < |cs[i]| + TAG_SIZE < TWO_32
    ensures Decode(a, seed, Frames(a, seed, cs, i, |cs|), Wrapped(i)) == Outcome(BadFormat, [])
  {
    ParseFrame(a.seal[DataBox(seed, cs, i)], Frames(a, seed, cs, i + 1, |cs|));
  }

  /** Behind a stream's own header and seed, with fewer than 2^32 chunks, the
      decoder accepts exactly the bytes that begin with all its frames and its
      footer: no proper prefix, and nothing with a frame dropped, repeated,
      swapped or changed. */
  lemma {:induction false} AcceptsExactly(a: Aead, issued: iset<Box>, seed: Bytes, cs: seq<Bytes>, body: Bytes)
    requires Decodable(a, issued, seed, cs) && Owns(issued, seed, cs) && |cs| < TWO_32
    ensures var r, whole := Decode(a, seed, body, 0), Joined(cs, 0, |cs|);
      && (r.status == Ok <==> Frames(a, seed, cs, 0, |cs|) <= body)
      && r.emitted <= whole && (r.status == Ok ==> r.emitted == whole)
  {
    OnlyWholeStream(a, issued, seed, cs, body, 0);
    var frames := Frames(a, seed, cs, 0, |cs|);
    if frames <= body {
      CutStream(a, issued, seed, cs, 0, |cs|, body[|frames|..]);
      assert body == frames + body[|frames|..];
    }
  }

  // ---- what is reported of anything else ----

  /** The frames of the chunks from `i` up to `m`, without a footer. */
  function DataFrames(a: Aead, seed: Bytes, cs: seq<Bytes>, i: nat, m: nat): Bytes
    requires i <= m <= |cs| && Total(a)
    decreases m - i
  {
    if i == m then [] else Frame(a.seal[DataBox(seed, cs, i)]) + DataFrames(a, seed, cs, i + 1, m)
  }

  /** An outcome behind what was emitted before. */
  function After(emitted: Bytes, r: Outcome): Outcome {
    Outcome(r.status, emitted + r.emitted)
  }

  /** Own frames are emitted, whatever follows. */
  ghost predicate Precede(a: Aead, seed: Bytes, cs: seq<Bytes>, i: nat, m: nat, tail: Bytes) {
    Total(a) && i <= m <= |cs| ==>
      Decode(a, seed, DataFrames(a, seed, cs, i, m) + tail, Wrapped(i)) ==
        After(Joined(cs, i, m), Decode(a, seed, tail, Wrapped(m)))
  }

  lemma {:induction false} PrecedeNothing(a: Aead, seed: Bytes, cs: seq<Bytes>, m: nat, tail: Bytes)
    ensures Precede(a, seed, cs, m, m, tail)
  {
    assert [] + tail == tail;
    if Total(a) {
      var r := Decode(a, seed, tail, Wrapped(m));
      assert [] + r.emitted == r.emitted;
    }
  }

  lemma {:induction false} PrecedeOne(a: Aead, issued: iset<Box>, seed: Bytes, cs: seq<Bytes>, i: nat, m: nat,
                                      tail: Bytes)
    requires Decodable(a, issued, seed, cs) && i < m <= |cs| && Precede(a, seed, cs, i + 1, m, tail)
    ensures Precede(a, seed, cs, i, m, tail)
  {
    var frame, rest := Frame(a.seal[DataBox(seed, cs, i)]), DataFrames(a, seed, cs, i + 1, m);
    assert (frame + rest) + tail == frame + (rest + tail);
    DecodeOwnChunk(a, issued, seed, cs, i, rest + tail);
    var joined, r := Joined(cs, i + 1, m), Decode(a, seed, tail, Wrapped(m));
    assert (cs[i] + joined) + r.emitted == cs[i] + (joined + r.emitted);
  }

  lemma {:induction false} OwnFramesFirst(a: Aead, issued: iset<Box>, seed: Bytes, cs: seq<Bytes>, i: nat, m: nat,
                                          tail: Bytes)
    requires Decodable(a, issued, seed, cs) && i <= m <= |cs|
    ensures Precede(a, seed, cs, i, m, tail)
    decreases m - i
  {
    if i == m {
      PrecedeNothing(a, seed, cs, m, tail);
    } else {
      OwnFramesFirst(a, issued, seed, cs, i + 1, m, tail);
      PrecedeOne(a, issued, seed, cs, i, m, tail);
    }
  }

  /** The sealed text of frame `m`: a chunk, or the footer behind the last one. */
  function Text(a: Aead, seed: Bytes, cs: seq<Bytes>, m: nat): Bytes
    requires Total(a) && m <= |cs|
  {
    if m < |cs| then a.seal[DataBox(seed, cs, m)] else a.seal[FooterBox(seed, |cs|)]
  }

  lemma {:induction false} PartOfFrame(a: Aead, seed: Bytes, text: Bytes, part: Bytes, index: uint32)
    requires Total(a) && 0 < |text| <= MAX_CHUNK_SIZE && part < Frame(text)
    ensures Decode(a, seed, part, index) == Outcome(if part == [] then Truncated else ReadFailed, [])
  {
    if |part| >= 4 {
      assert part[..4] == Frame(text)[..4] == Uint32(|text|);
      RoundTrip32(|text|);
    }
  }

  /** A stream cut anywhere before the end of its footer is noticed: at the end of a
      frame as truncated, within one as a failed read, and in either case exactly the
      chunks of the whole frames have been emitted. */
  lemma {:induction false} CutAnywhere(a: Aead, issued: iset<Box>, seed: Bytes, cs: seq<Bytes>, m: nat, part: Bytes)
    requires Decodable(a, issued, seed, cs) && m <= |cs| && part < Frame(Text(a, seed, cs, m))
    ensures Decode(a, seed, DataFrames(a, seed, cs, 0, m) + part, 0) ==
            Outcome(if part == [] then Truncated else ReadFailed, Joined(cs, 0, m))
  {
    OwnFramesFirst(a, issued, seed, cs, 0, m, part);
    assert m < |cs| ==> Fits(cs[m]);
    PartOfFrame(a, seed, Text(a, seed, cs, m), part, Wrapped(m));
    assert Joined(cs, 0, m) + [] == Joined(cs, 0, m);
  }

  /** Any other text in place of frame `m` is reported as tampering, unless it is the
      footer, after the `m` chunks before it. */
  lemma {:induction false} OtherFrame(a: Aead, issued: iset<Box>, seed: Bytes, cs: seq<Bytes>, m: nat, text: Bytes,
                                      rest: Bytes)
    requires Decodable(a, issued, seed, cs) && Owns(issued, seed, cs) && m <= |cs| < TWO_32
    requires 0 < |text| <= MAX_CHUNK_SIZE && text != Text(a, seed, cs, m) && text != Text(a, seed, cs, |cs|)
    ensures Decode(a, seed, DataFrames(a, seed, cs, 0, m) + (Frame(text) + rest), 0) ==
            Outcome(Tampered, Joined(cs, 0, m))
  {
    OwnFramesFirst(a, issued, seed, cs, 0, m, Frame(text) + rest);
    OpensOwnChunk(a, issued, seed, cs, m, text);
    OpensOwnFooter(a, issued, seed, cs, text);
    DecodeFooter(a, seed, text, rest, Wrapped(m));
    assert Joined(cs, 0, m) + [] == Joined(cs, 0, m);
  }

  /** A length of zero or above the limit is refused as malformed. */
  lemma {:induction false} BadLength(a: Aead, issued: iset<Box>, seed: Bytes, cs: seq<Bytes>, m: nat, n: uint32,
                                     rest: Bytes)
    requires Decodable(a, issued, seed, cs) && m <= |cs| && (n == 0 || n > MAX_CHUNK_SIZE)
    ensures Decode(a, seed, DataFrames(a, seed, cs, 0, m) + (Uint32(n) + rest), 0) ==
            Outcome(BadFormat, Joined(cs, 0, m))
  {
    OwnFramesFirst(a, issued, seed, cs, 0, m, Uint32(n) + rest);
    assert (Uint32(n) + rest)[..4] == Uint32(n);
    RoundTrip32(n);
    assert Joined(cs, 0, m) + [] == Joined(cs, 0, m);
  }

  lemma {:induction false} JoinedGrows(cs: seq<Bytes>, i: nat, m: nat, n: nat)
    requires i <= m <= n <= |cs|
    ensures Joined(cs, i, n) == Joined(cs, i, m) + Joined(cs, m, n)
    decreases m - i
  {
    if i < m {
      JoinedGrows(cs, i + 1, m, n);
    }
  }

  lemma {:induction false} WrappedLess(i: nat)
    requires i >= TWO_32
    ensures Wrapped(i) < i && Wrapped(Wrapped(i)) == Wrapped(i)
  {}

  /** A stream whose count has wrapped can lose 2^32 chunks, or a multiple. */
  lemma {:induction false} LongStreamCut(a: Aead, issued: iset<Box>, seed: Bytes, cs: seq<Bytes>) returns (body: Bytes)
    requires Decodable(a, issued, seed, cs) && |cs| >= TWO_32 && forall i :: 0 <= i < |cs| ==> cs[i] != []
    ensures Decode(a, seed, body, 0).status == Ok && Decode(a, seed, body, 0).emitted != Joined(cs, 0, |cs|)
  {
    var m := Wrapped(|cs|);
    WrappedLess(|cs|);
    CutStream(a, issued, seed, cs, 0, m, []);
    JoinedGrows(cs, 0, m, |cs|);
    assert Joined(cs, m, |cs|) != [] by { assert cs[m] != []; }
    body := Frames(a, seed, cs, 0, m) + [];
    assert Wrapped(0) == 0;
  }

  /** Truncation of a stream goes unnoticed for some bytes exactly if it has at
      least 2^32 chunks: then the count of the footer has wrapped. */
  lemma {:induction false} TruncationNoticed(a: Aead, issued: iset<Box>, seed: Bytes, cs: seq<Bytes>)
    requires Decodable(a, issued, seed, cs) && Owns(issued, seed, cs) && forall i :: 0 <= i < |cs| ==> cs[i] != []
    ensures (forall body :: Decode(a, seed, body, 0).status == Ok ==>
            Decode(a, seed, body, 0).emitted == Joined(cs, 0, |cs|))
      <==> |cs| < TWO_32
  {
    if |cs| < TWO_32 {
      forall body | Decode(a, seed, body, 0).status == Ok
        ensures Decode(a, seed, body, 0).emitted == Joined(cs, 0, |cs|)
      {
        OnlyWholeStream(a, issued, seed, cs, body, 0);
      }
    } else {
      var body := LongStreamCut(a, issued, seed, cs);
    }
  }

  lemma {:induction false} JoinedSuffix(cs: seq<Bytes>, ds: seq<Bytes>, i: nat, k: nat)
    requires k + |ds| == |cs| && i <= |ds| && forall j :: 0 <= j < |ds| ==> cs[k + j] == ds[j]
    ensures Joined(ds, i, |ds|) == Joined(cs, k + i, |cs|)
    decreases |ds| - i
  {
    if i < |ds| {
      JoinedSuffix(cs, ds, i + 1, k);
    }
  }

  lemma {:induction false} ChunksJoin(plain: Bytes, chunk: nat)
    requires chunk > 0
    ensures var cs := Chunks(plain, chunk); Joined(cs, 0, |cs|) == plain
  {
    var cs := Chunks(plain, chunk);
    if plain == [] {
    } else if |plain| <= chunk {
      assert Joined(cs, 1, 1) == [];
    } else {
      ChunksJoin(plain[chunk..], chunk);
      JoinedSuffix(cs, Chunks(plain[chunk..], chunk), 0, 1);
      assert plain == plain[..chunk] + plain[chunk..];
    }
  }

  predicate Full(cs: seq<Bytes>, chunk: nat) {
    forall i :: 0 <= i < |cs| - 1 ==> |cs[i]| == chunk
  }

  lemma {:induction false} FullCons(c: Bytes, rest: seq<Bytes>, chunk: nat)
    requires |c| == chunk && Full(rest, chunk)
    ensures Full([c] + rest, chunk)
  {
    var cs := [c] + rest;
    forall i | 0 <= i < |cs| - 1 ensures |cs[i]| == chunk {
      if i > 0 { assert cs[i] == rest[i - 1]; }
    }
  }

  /** All chunks but the last are full. */
  lemma {:induction false} FullChunks(plain: Bytes, chunk: nat)
    requires chunk > 0
    ensures Full(Chunks(plain, chunk), chunk)
  {
    if |plain| > chunk {
      FullChunks(plain[chunk..], chunk);
      FullCons(plain[..chunk], Chunks(plain[chunk..], chunk), chunk);
    }
  }

  lemma {:induction false} ParseHeader(chunk: uint16, seed: Bytes, body: Bytes)
    requires |seed| == SEED_SIZE && chunk <= MAX_CHUNK_SIZE
    ensures var input := Header(chunk, seed) + body;
      && |input| >= 11 && input[0] == STREAM_VERSION && FromUint16(input[1..][..2]) == chunk
      && input[1..][2..2 + SEED_SIZE] == seed && input[1..][2 + SEED_SIZE..] == body
  {
    var input := Header(chunk, seed) + body;
    assert input[1..] == Uint16(chunk) + seed + body;
    assert input[1..][..2] == Uint16(chunk);
    RoundTrip16(chunk);
  }

  lemma {:induction false} DecryptedBody(a: Aead, chunk: nat, seed: Bytes, body: Bytes)
    requires Total(a) && |seed| == SEED_SIZE && MIN_CHUNK_SIZE <= chunk <= MAX_CHUNK_SIZE
    ensures Decrypted(a, Header(chunk, seed) + body) == Decode(a, seed, body, 0)
  {
    ParseHeader(chunk, seed, body);
  }

  /** A stream decrypts to its plaintext, except that the decoder refuses it, and emits
      nothing, if the chunk size was set above 4112 and the first chunk is longer than
      that. */
  lemma {:induction false} StreamRoundTrip(a: Aead, issued: iset<Box>, chunkSize: int, seed: Bytes, plain: Bytes)
    requires Ideal(a, issued) && Total(a) && |seed| == SEED_SIZE &&
             Issues(issued, seed, Chunks(plain, EffectiveChunk(chunkSize)))
    ensures var r := Decrypted(a, Encrypted(a, chunkSize, seed, plain));
      if MAX_CHUNK_SIZE - TAG_SIZE < chunkSize <= MAX_CHUNK_SIZE && |plain| > MAX_CHUNK_SIZE - TAG_SIZE
      then r == Outcome(BadFormat, [])
      else r == Outcome(Ok, plain)
  {
    var chunk := EffectiveChunk(chunkSize);
    var cs := Chunks(plain, chunk);
    DecryptedBody(a, chunk, seed, Frames(a, seed, cs, 0, |cs|));
    if chunk <= MAX_CHUNK_SIZE - TAG_SIZE || |plain| <= MAX_CHUNK_SIZE - TAG_SIZE {
      CutStream(a, issued, seed, cs, 0, |cs|, []);
      assert Frames(a, seed, cs, 0, |cs|) + [] == Frames(a, seed, cs, 0, |cs|);
      ChunksJoin(plain, chunk);
    } else {
      BigChunk(a, issued, seed, cs, 0);
    }
  }

  // ---- the code ----

  method PutUint32(buf: array<byte>, at: nat, v: uint32)
    requires at + 4 <= buf.Length
    modifies buf
    ensures forall i :: 0 <= i < 4 ==> buf[at + i] == Uint32(v)[i]
    ensures forall i :: 0 <= i < buf.Length && !(at <= i < at + 4) ==> buf[i] == old(buf[i])
  {
    var bytes := Uint32(v);
    buf[at] := bytes[0];
    buf[at + 1] := bytes[1];
    buf[at + 2] := bytes[2];
    buf[at + 3] := bytes[3];
  }

  /** Rebuilds the nonce in the shared buffer. */
  method SetNonce(nonce: array<byte>, seed: Bytes, index: uint32)
    requires nonce.Length == NONCE_SIZE && |seed| == SEED_SIZE
    modifies nonce
    ensures nonce[..] == Nonce(seed, index)
  {
    for i := 0 to SEED_SIZE
      invariant forall j :: 0 <= j < i ==> nonce[j] == seed[j]
    {
      nonce[i] := seed[i];
    }
    PutUint32(nonce, SEED_SIZE, index);
    forall i | SEED_SIZE <= i < NONCE_SIZE ensures nonce[i] == Nonce(seed, index)[i] {
      var j := i - SEED_SIZE;
      assert nonce[SEED_SIZE + j] == Uint32(index)[j];
    }
  }

  class Cipher {
    const aead: Aead
    var chunkSize: int

    constructor (aead: Aead)
      ensures this.aead == aead && chunkSize == CHUNK_SIZE
    {
      this.aead := aead;
      chunkSize := CHUNK_SIZE;
    }

    method SetStreamChunkSize(n: int) returns (ok: bool)
      modifies this
      ensures ok <==> MIN_CHUNK_SIZE <= n <= MAX_CHUNK_SIZE
      ensures chunkSize == if ok then n else old(chunkSize)
    {
      ok := MIN_CHUNK_SIZE <= n <= MAX_CHUNK_SIZE;
      if ok {
        chunkSize := n;
      }
    }

    /** One sealed frame, with the nonce built in the shared buffer. */
    method SealFrame(nonce: array<byte>, seed: Bytes, index: uint32, aad: Bytes, piece: Bytes) returns (frame: Bytes)
      requires Total(aead) && nonce.Length == NONCE_SIZE && |seed| == SEED_SIZE
      modifies nonce
      ensures frame == Frame(aead.seal[Box(Nonce(seed, index), aad, piece)])
    {
      SetNonce(nonce, seed, index);
      var sealed := aead.seal[Box(nonce[..], aad, piece)];
      frame := Uint32(Low32(|sealed|)) + sealed;
    }

    /** The header names the chunk size in use, which is the configured one where it is
        allowed; the frames are those of the plaintext in chunks of that size. */
    method EncryptStream(plain: Bytes, seed: Bytes) returns (out: Bytes)
      requires Total(aead) && |seed| == SEED_SIZE
      ensures out == Encrypted(aead, chunkSize, seed, plain)
      ensures var chunk := if MIN_CHUNK_SIZE <= chunkSize <= MAX_CHUNK_SIZE then chunkSize else CHUNK_SIZE;
              var cs := Chunks(plain, chunk);
              && |out| >= 11 && out[0] == STREAM_VERSION && out[1..3] == Uint16(chunk) && out[3..11] == seed
              && out[11..] == Frames(aead, seed, cs, 0, |cs|)
              && Full(cs, chunk)
    {
      var chunk := chunkSize;
      if chunk < MIN_CHUNK_SIZE || chunk > MAX_CHUNK_SIZE {
        chunk := CHUNK_SIZE;
      }
      FullChunks(plain, chunk);
      var header := [STREAM_VERSION] + Uint16(chunk) + seed;
      var nonce := new byte[NONCE_SIZE];
      var frames, chunkIndex := SealChunks(nonce, plain, chunk, seed);
      var footer := SealFrame(nonce, seed, FOOTER_NONCE_INDEX, FOOTER_AAD, Uint32(chunkIndex));
      out := header + (frames + footer);
    }

    /** The loop over the plaintext. */
    method SealChunks(nonce: array<byte>, plain: Bytes, chunk: nat, seed: Bytes)
      returns (out: Bytes, chunkIndex: uint32)
      requires Total(aead) && nonce.Length == NONCE_SIZE && |seed| == SEED_SIZE && chunk > 0
      modifies nonce
      ensures var cs := Chunks(plain, chunk);
        chunkIndex == Wrapped(|cs|) && out + Frame(aead.seal[FooterBox(seed, |cs|)]) == Frames(aead, seed, cs, 0, |cs|)
    {
      out, chunkIndex := [], 0;
      var pos := 0;
      ghost var cs, i := Chunks(plain, chunk), 0;
      SealingStart(aead, seed, plain, chunk);
      while pos < |plain|
        invariant pos <= |plain| && i <= |cs| && chunkIndex == Wrapped(i)
        invariant Sealing(aead, seed, plain, chunk, cs, pos, i, out)
      {
        var n := if |plain| - pos < chunk then |plain| - pos else chunk;
        NextChunk(plain, chunk, cs, pos, i);
        var frame := SealFrame(nonce, seed, chunkIndex, [], plain[pos..pos + n]);
        FrameOut(aead, seed, plain, chunk, cs, pos, i, n, out, frame);
        WrappedNext(i);
        out, chunkIndex := out + frame, Incremented(chunkIndex);
        pos, i := pos + n, i + 1;
      }
      SealingDone(aead, seed, plain, chunk, cs, i, out);
    }

    /** Opens a sealed text as chunk `index`, or else as the footer. */
    method OpenFrame(nonce: array<byte>, seed: Bytes, text: Bytes, index: uint32)
      returns (data: Option<Bytes>, status: Status)
      requires Total(aead) && nonce.Length == NONCE_SIZE && |seed| == SEED_SIZE
      modifies nonce
      ensures data == aead.open[Sealed(Nonce(seed, index), [], text)]
      ensures data.None? ==> status == Footer(aead, seed, text, index)
    {
      status := Ok;
      SetNonce(nonce, seed, index);
      data := aead.open[Sealed(nonce[..], [], text)];
      if data.None? {
        SetNonce(nonce, seed, FOOTER_NONCE_INDEX);
        var footer := aead.open[Sealed(nonce[..], FOOTER_AAD, text)];
        if footer.None? {
          status := Tampered;
        } else if |footer.value| != 4 {
          status := BadFormat;
        } else if FromUint32(footer.value) != index {
          status := BadFormat;
        }
      }
    }

    method DecryptStreamV4(input: Bytes) returns (r: Outcome)
      requires Total(aead)
      ensures r == DecodeV4(aead, input)
    {
      if |input| < SEED_SIZE + 2 {
        return Outcome(ReadFailed, []);
      }
      var declared := FromUint16(input[..2]);
      if declared < MIN_CHUNK_SIZE || declared > MAX_CHUNK_SIZE {
        return Outcome(BadFormat, []);
      }
      r := DecodeFrames(input[2..2 + SEED_SIZE], input[2 + SEED_SIZE..]);
    }

    /** The loop over the frames. */
    method DecodeFrames(seed: Bytes, input: Bytes) returns (r: Outcome)
      requires Total(aead) && |seed| == SEED_SIZE
      ensures r == Decode(aead, seed, input, 0)
    {
      var nonce := new byte[NONCE_SIZE];
      var chunkIndex: uint32, emitted: Bytes := 0, [];
      var body := input;
      while |body| >= CHUNK_HEADER
        invariant After(emitted, Decode(aead, seed, body, chunkIndex)) == Decode(aead, seed, input, 0)
        decreases |body|
      {
        var n := FromUint32(body[..4]);
        if n > MAX_CHUNK_SIZE || n == 0 {
          return Outcome(BadFormat, emitted);
        }
        if |body| < 4 + n {
          return Outcome(ReadFailed, emitted);
        }
        var plaintext, status := OpenFrame(nonce, seed, body[4..4 + n], chunkIndex);
        if plaintext.None? {
          return Outcome(status, emitted);
        }
        AfterData(aead, seed, body, n, chunkIndex, emitted, plaintext.value);
        emitted := emitted + plaintext.value;
        chunkIndex := Incremented(chunkIndex);
        body := body[4 + n..];
      }
      r := Outcome(if |body| == 0 then Truncated else ReadFailed, emitted);
    }

    method DecryptStream(input: Bytes) returns (r: Outcome)
      requires Total(aead)
      ensures r == Decrypted(aead, input)
      ensures input == [] ==> r == Outcome(ReadFailed, [])
      ensures input != [] && input[0] != 4 && input[0] != 3 && input[0] != 2 ==> r == Outcome(BadFormat, [])
      ensures input != [] && input[0] == 4 && |input| < 11 ==> r == Outcome(ReadFailed, [])
      ensures |input| >= 11 && input[0] == 4 && !(512 <= FromUint16(input[1..3]) <= 4128) ==>
                r == Outcome(BadFormat, [])
    {
      assert |input| >= 11 ==> input[1..][..2] == input[1..3];
      if |input| == 0 {
        return Outcome(ReadFailed, []);
      }
      if input[0] == STREAM_VERSION {
        r := DecryptStreamV4(input[1..]);
      } else if input[0] == 3 || input[0] == 2 {
        r := Outcome(Legacy, []);
      } else {
        r := Outcome(BadFormat, []);
      }
    }
  }

  lemma {:induction false} AfterData(a: Aead, seed: Bytes, body: Bytes, n: nat, index: uint32, emitted: Bytes, v: Bytes)
    requires Total(a) && |body| >= 4 + n && n == FromUint32(body[..4]) && 0 < n <= MAX_CHUNK_SIZE
    requires a.open[Sealed(Nonce(seed, index), [], body[4..4 + n])] == Some(v)
    ensures After(emitted, Decode(a, seed, body, index)) ==
            After(emitted + v, Decode(a, seed, body[4 + n..], Incremented(index)))
  {
    var next := Decode(a, seed, body[4 + n..], Incremented(index));
    assert emitted + (v + next.emitted) == (emitted + v) + next.emitted;
  }

  /** The chunks from `i` on are those of the plaintext from `pos` on. */
  ghost predicate ChunksFrom(plain: Bytes, chunk: nat, cs: seq<Bytes>, pos: nat, i: nat)
    requires chunk > 0 && pos <= |plain| && i <= |cs|
  {
    Chunks(plain[pos..], chunk) == cs[i..]
  }

  /** The next piece read is the next chunk. */
  lemma {:induction false} NextChunk(plain: Bytes, chunk: nat, cs: seq<Bytes>, pos: nat, i: nat)
    requires chunk > 0 && pos < |plain| && i <= |cs| && ChunksFrom(plain, chunk, cs, pos, i)
    ensures var n := if |plain| - pos < chunk then |plain| - pos else chunk;
      i < |cs| && plain[pos..pos + n] == cs[i] && ChunksFrom(plain, chunk, cs, pos + n, i + 1)
  {
    var rest := plain[pos..];
    var n := if |plain| - pos < chunk then |plain| - pos else chunk;
    assert rest[..n] == plain[pos..pos + n] && rest[n..] == plain[pos + n..];
    assert cs[i..][0] == cs[i] && cs[i..][1..] == cs[i + 1..];
    if |rest| <= chunk {
      assert rest[..n] == rest && rest[n..] == [];
      assert Chunks(rest, chunk) == [rest];
    }
  }

  /** `pos` bytes have gone into the first `i` chunks, whose frames are out. */
  ghost predicate Sealing(a: Aead, seed: Bytes, plain: Bytes, chunk: nat, cs: seq<Bytes>, pos: nat, i: nat, out: Bytes)
    requires Total(a) && chunk > 0 && pos <= |plain| && i <= |cs|
  {
    && ChunksFrom(plain, chunk, cs, pos, i)
    && out + Frames(a, seed, cs, i, |cs|) == Frames(a, seed, cs, 0, |cs|)
  }

  lemma {:induction false} FrameOut(a: Aead, seed: Bytes, plain: Bytes, chunk: nat, cs: seq<Bytes>, pos: nat, i: nat,
                                    n: nat, out: Bytes, frame: Bytes)
    requires Total(a) && chunk > 0 && pos + n <= |plain| && i < |cs| && Sealing(a, seed, plain, chunk, cs, pos, i, out)
    requires frame == Frame(a.seal[DataBox(seed, cs, i)]) && ChunksFrom(plain, chunk, cs, pos + n, i + 1)
    ensures Sealing(a, seed, plain, chunk, cs, pos + n, i + 1, out + frame)
  {
    assert out + (frame + Frames(a, seed, cs, i + 1, |cs|)) == (out + frame) + Frames(a, seed, cs, i + 1, |cs|);
  }

  lemma {:induction false} SealingStart(a: Aead, seed: Bytes, plain: Bytes, chunk: nat)
    requires Total(a) && chunk > 0
    ensures Sealing(a, seed, plain, chunk, Chunks(plain, chunk), 0, 0, [])
  {
    assert plain[0..] == plain;
  }

  lemma {:induction false} SealingDone(a: Aead, seed: Bytes, plain: Bytes, chunk: nat, cs: seq<Bytes>, i: nat,
                                       out: Bytes)
    requires Total(a) && chunk > 0 && i <= |cs| && Sealing(a, seed, plain, chunk, cs, |plain|, i, out)
    ensures i == |cs| && out + Frame(a.seal[FooterBox(seed, |cs|)]) == Frames(a, seed, cs, 0, |cs|)
  {
    assert |plain[|plain|..]| == 0;
    assert |cs[i..]| == 0;
  }
}
