/**
 The end-to-end encryption envelope of src/crypto/envelope.go: a header with a
 key id and a wrapped data key in front of a stream under the data key. The data
 key, the wrapping nonce and the stream seed are random in the program and
 parameters here.
 */
module Envelope {
  import opened Bytes
  import opened Stream

  const MAGIC: Bytes := [77, 79, 77, 79, 69, 78, 86, 49]
  const VERSION: byte := 1
  const ALGO_AES256_GCM: byte := 1
  const MAX_KEY_ID_LEN := 256
  const MAX_WRAPPED_KEY_LEN := 1024
  const KEY_SIZE := 32

  /** The cipher of every key. */
  type Ring = imap<Bytes, Aead>

  ghost predicate Usable(ring: Ring) {
    forall k :: k in ring && Total(ring[k])
  }

  datatype Meta = Meta(version: byte, algorithm: byte, keyID: Bytes)

  datatype Error =
    | InvalidKeySize | KeyIDTooLong | WrappedTooLong | ShortPrefix | NotEnvelope | UnsupportedVersion
    | UnsupportedAlgorithm | FieldTooLarge | ShortKeyMaterial | CannotUnwrap | ContentFailed(status: Stream.Status)

  datatype Result<+T> = Success(value: T) | Failure(error: Error)

  /** What DecryptEnvelope returns and what it wrote to its destination. */
  datatype Opening = Opening(error: Option<Error>, meta: Meta, emitted: Bytes)

  const NO_META := Meta(0, 0, [])

  // ---- the format ----

  /** Cipher.Encrypt: the nonce in front of the sealed text. */
  function Wrapping(a: Aead, nonce: Bytes, key: Bytes): Bytes
    requires Total(a)
  {
    nonce + a.seal[Box(nonce, [], key)]
  }

  /** Cipher.Decrypt. */
  function Unwrapped(a: Aead, wrapped: Bytes): Option<Bytes>
    requires Total(a)
  {
    if |wrapped| < NONCE_SIZE + TAG_SIZE then None
    else a.open[Sealed(wrapped[..NONCE_SIZE], [], wrapped[NONCE_SIZE..])]
  }

  function FixedHeader(keyID: Bytes, wrapped: Bytes): Bytes
    requires |keyID| <= MAX_KEY_ID_LEN && |wrapped| <= MAX_WRAPPED_KEY_LEN
  {
    MAGIC + [VERSION, ALGO_AES256_GCM] + Uint16(|keyID|) + Uint16(|wrapped|)
  }

  function EnvelopeHeader(keyID: Bytes, wrapped: Bytes): Bytes
    requires |keyID| <= MAX_KEY_ID_LEN && |wrapped| <= MAX_WRAPPED_KEY_LEN
  {
    FixedHeader(keyID, wrapped) + keyID + wrapped
  }

  /** What is left of the input behind a well-formed header is content under the
      data key. */
  function OpenContent(ring: Ring, masterKey: Bytes, meta: Meta, wrapped: Bytes, content: Bytes): Opening
    requires Usable(ring)
  {
    var dataKey := Unwrapped(ring[masterKey], wrapped);
    if dataKey.None? then Opening(Some(CannotUnwrap), meta, [])
    else if |dataKey.value| != KEY_SIZE then Opening(Some(InvalidKeySize), meta, [])
    else
      var r := Decrypted(ring[dataKey.value], content);
      Opening(if r.status == Ok then None else Some(ContentFailed(r.status)), meta, r.emitted)
  }

  function Opened(ring: Ring, masterKey: Bytes, input: Bytes): Opening
    requires Usable(ring)
  {
    if |masterKey| != KEY_SIZE then Opening(Some(InvalidKeySize), NO_META, [])
    else if |input| < 14 then Opening(Some(ShortPrefix), NO_META, [])
    else if input[..8] != MAGIC then Opening(Some(NotEnvelope), NO_META, [])
    else
      var meta := Meta(input[8], input[9], []);
      if meta.version != VERSION then Opening(Some(UnsupportedVersion), meta, [])
      else if meta.algorithm != ALGO_AES256_GCM then Opening(Some(UnsupportedAlgorithm), meta, [])
      else
        var k, w := FromUint16(input[10..12]) as int, FromUint16(input[12..14]) as int;
        if k > MAX_KEY_ID_LEN || w > MAX_WRAPPED_KEY_LEN then Opening(Some(FieldTooLarge), meta, [])
        else if |input| < 14 + k + w then Opening(Some(ShortKeyMaterial), meta, [])
        else OpenContent(ring, masterKey, meta.(keyID := input[14..14 + k]), input[14 + k..14 + k + w],
            input[14 + k + w..])
  }

  // ---- the code ----

  method WriteEnvelopeHeader(keyID: Bytes, wrappedKey: Bytes) returns (dst: Bytes, ok: bool)
    requires |keyID| <= MAX_KEY_ID_LEN
    ensures ok <==> |wrappedKey| <= MAX_WRAPPED_KEY_LEN
    ensures dst == if ok then EnvelopeHeader(keyID, wrappedKey) else MAGIC
    ensures ok ==>
              && |dst| == 14 + |keyID| + |wrappedKey| && dst[..8] == MAGIC && dst[8] == 1 && dst[9] == 1
              && dst[10..12] == Uint16(|keyID|) && dst[12..14] == Uint16(|wrappedKey|)
              && dst[14..14 + |keyID|] == keyID && dst[14 + |keyID|..] == wrappedKey
  {
    dst := MAGIC;
    if |wrappedKey| > MAX_WRAPPED_KEY_LEN {
      return dst, false;
    }
    var lenBuf := Uint16(|keyID|) + Uint16(|wrappedKey|);
    var hdr: Bytes := [VERSION, ALGO_AES256_GCM];
    hdr := hdr + lenBuf;
    hdr := hdr + keyID;
    hdr := hdr + wrappedKey;
    dst := dst + hdr;
    ok := true;
  }

  method EncryptEnvelope(ring: Ring, plain: Bytes, masterKey: Bytes, keyID: Bytes, dataKey: Bytes, nonce: Bytes,
                         seed: Bytes)
    returns (r: Result<Bytes>)
    requires Usable(ring) && |dataKey| == KEY_SIZE && |nonce| == NONCE_SIZE && |seed| == SEED_SIZE
    ensures r == if |masterKey| != KEY_SIZE then Failure(InvalidKeySize)
                 else if |keyID| > MAX_KEY_ID_LEN then Failure(KeyIDTooLong)
                 else
                   var wrapped := nonce + ring[masterKey].seal[Box(nonce, [], dataKey)];
                   if |wrapped| > MAX_WRAPPED_KEY_LEN then Failure(WrappedTooLong)
                   else Success(EnvelopeHeader(keyID, wrapped) + Encrypted(ring[dataKey], CHUNK_SIZE, seed, plain))
  {
    if |masterKey| != KEY_SIZE {
      return Failure(InvalidKeySize);
    }
    if |keyID| > MAX_KEY_ID_LEN {
      return Failure(KeyIDTooLong);
    }
    var wrappedKey := Wrapping(ring[masterKey], nonce, dataKey);
    var header, ok := WriteEnvelopeHeader(keyID, wrappedKey);
    if !ok {
      return Failure(WrappedTooLong);
    }
    var cipher := new Cipher(ring[dataKey]);
    var content := cipher.EncryptStream(plain, seed);
    r := Success(header + content);
  }

  method DecryptEnvelope(ring: Ring, src: Bytes, masterKey: Bytes) returns (r: Opening)
    requires Usable(ring)
    ensures r == Opened(ring, masterKey, src)
    ensures |masterKey| == KEY_SIZE ==>
              && (r.error == Some(ShortPrefix) <==> |src| < 14)
              && (r.error == Some(NotEnvelope) <==> |src| >= 14 && src[..8] != MAGIC)
              && (r.error == Some(UnsupportedVersion) <==> |src| >= 14 && src[..8] == MAGIC && src[8] != 1)
              && (r.error == Some(UnsupportedAlgorithm) <==>
                    |src| >= 14 && src[..8] == MAGIC && src[8] == 1 && src[9] != 1)
    ensures r.error.Some? && !r.error.value.ContentFailed? ==> r.emitted == []
  {
    var meta := NO_META;
    if |masterKey| != KEY_SIZE {
      return Opening(Some(InvalidKeySize), meta, []);
    }
    if |src| < 14 {
      return Opening(Some(ShortPrefix), meta, []);
    }
    if src[..8] != MAGIC {
      return Opening(Some(NotEnvelope), meta, []);
    }
    meta := meta.(version := src[8], algorithm := src[9]);
    if meta.version != VERSION {
      return Opening(Some(UnsupportedVersion), meta, []);
    }
    if meta.algorithm != ALGO_AES256_GCM {
      return Opening(Some(UnsupportedAlgorithm), meta, []);
    }
    var keyIDLen, wrappedLen := FromUint16(src[10..12]) as int, FromUint16(src[12..14]) as int;
    if keyIDLen > MAX_KEY_ID_LEN || wrappedLen > MAX_WRAPPED_KEY_LEN {
      return Opening(Some(FieldTooLarge), meta, []);
    }
    if |src| < 14 + keyIDLen + wrappedLen {
      return Opening(Some(ShortKeyMaterial), meta, []);
    }
    meta := meta.(keyID := src[14..14 + keyIDLen]);
    r := UnwrapAndDecrypt(ring, masterKey, meta, src[14 + keyIDLen..14 + keyIDLen + wrappedLen],
        src[14 + keyIDLen + wrappedLen..]);
  }

  method UnwrapAndDecrypt(ring: Ring, masterKey: Bytes, meta: Meta, wrappedKey: Bytes, content: Bytes)
    returns (r: Opening)
    requires Usable(ring)
    ensures r == OpenContent(ring, masterKey, meta, wrappedKey, content)
    ensures r.meta == meta
    ensures |wrappedKey| < 28 ==> r.error == Some(CannotUnwrap)
    ensures |wrappedKey| >= 28 ==>
              match ring[masterKey].open[Sealed(wrappedKey[..12], [], wrappedKey[12..])]
              case None => r == Opening(Some(CannotUnwrap), meta, [])
              case Some(key) =>
                if |key| != 32 then r == Opening(Some(InvalidKeySize), meta, [])
                else r.emitted == Decrypted(ring[key], content).emitted &&
                     (r.error.None? <==> Decrypted(ring[key], content).status == Ok)
  {
    var dataKey := Unwrapped(ring[masterKey], wrappedKey);
    if dataKey.None? {
      return Opening(Some(CannotUnwrap), meta, []);
    }
    if |dataKey.value| != KEY_SIZE {
      return Opening(Some(InvalidKeySize), meta, []);
    }
    var cipher := new Cipher(ring[dataKey.value]);
    var out := cipher.DecryptStream(content);
    r := Opening(if out.status == Ok then None else Some(ContentFailed(out.status)), meta, out.emitted);
  }

  // ---- round trip ----

  lemma {:induction false} ParseFixed(keyID: Bytes, wrapped: Bytes, rest: Bytes)
    requires |keyID| <= MAX_KEY_ID_LEN && |wrapped| <= MAX_WRAPPED_KEY_LEN
    ensures var input := FixedHeader(keyID, wrapped) + rest;
      && |input| >= 14 && input[..8] == MAGIC && input[8] == VERSION && input[9] == ALGO_AES256_GCM
      && FromUint16(input[10..12]) == |keyID| && FromUint16(input[12..14]) == |wrapped| && input[14..] == rest
  {
    var input := FixedHeader(keyID, wrapped) + rest;
    assert input[10..12] == Uint16(|keyID|) && input[12..14] == Uint16(|wrapped|);
    RoundTrip16(|keyID|);
    RoundTrip16(|wrapped|);
  }

  lemma {:induction false} Sliced(input: Bytes, keyID: Bytes, wrapped: Bytes, content: Bytes)
    requires |input| >= 14 && input[14..] == keyID + wrapped + content
    ensures var k, w := |keyID|, |wrapped|;
      |input| >= 14 + k + w && input[14..14 + k] == keyID && input[14 + k..14 + k + w] == wrapped &&
          input[14 + k + w..] == content
  {
    var rest := input[14..];
    var k, w := |keyID|, |wrapped|;
    assert rest[..k] == keyID && rest[k..k + w] == wrapped && rest[k + w..] == content;
    assert input[14..14 + k] == rest[..k] && input[14 + k..14 + k + w] == rest[k..k + w] &&
        input[14 + k + w..] == rest[k + w..];
  }

  /** Behind its own header an envelope is its content. */
  lemma {:induction false} OpenedContent(ring: Ring, masterKey: Bytes, keyID: Bytes, wrapped: Bytes, content: Bytes)
    requires Usable(ring) && |masterKey| == KEY_SIZE && |keyID| <= MAX_KEY_ID_LEN && |wrapped| <= MAX_WRAPPED_KEY_LEN
    ensures Opened(ring, masterKey, EnvelopeHeader(keyID, wrapped) + content) ==
      OpenContent(ring, masterKey, Meta(VERSION, ALGO_AES256_GCM, keyID), wrapped, content)
  {
    var rest := keyID + wrapped + content;
    var input := FixedHeader(keyID, wrapped) + rest;
    assert EnvelopeHeader(keyID, wrapped) + content == input;
    ParseFixed(keyID, wrapped, rest);
    Sliced(input, keyID, wrapped, content);
  }

  lemma {:induction false} UnwrapsOwn(a: Aead, issued: iset<Box>, nonce: Bytes, key: Bytes)
    requires Ideal(a, issued) && Total(a) && |nonce| == NONCE_SIZE && Box(nonce, [], key) in issued
    ensures |Wrapping(a, nonce, key)| == NONCE_SIZE + |key| + TAG_SIZE &&
            Unwrapped(a, Wrapping(a, nonce, key)) == Some(key)
  {
    var w := Wrapping(a, nonce, key);
    assert w[..NONCE_SIZE] == nonce && w[NONCE_SIZE..] == a.seal[Box(nonce, [], key)];
  }

  /** Every plaintext and key id of up to 256 bytes comes back from its envelope. */
  lemma {:induction false} EnvelopeRoundTrip(ring: Ring, wraps: iset<Box>, issued: iset<Box>, masterKey: Bytes,
                                             keyID: Bytes, dataKey: Bytes, nonce: Bytes, seed: Bytes, plain: Bytes)
    requires Usable(ring) && |masterKey| == KEY_SIZE && |keyID| <= MAX_KEY_ID_LEN && |dataKey| == KEY_SIZE
    requires |nonce| == NONCE_SIZE && |seed| == SEED_SIZE
    requires Ideal(ring[masterKey], wraps) && Box(nonce, [], dataKey) in wraps
    requires Ideal(ring[dataKey], issued) && Issues(issued, seed, Chunks(plain, CHUNK_SIZE))
    ensures var wrapped := Wrapping(ring[masterKey], nonce, dataKey);
      && |wrapped| <= MAX_WRAPPED_KEY_LEN
      && Opened(ring, masterKey, EnvelopeHeader(keyID, wrapped) + Encrypted(ring[dataKey], CHUNK_SIZE, seed, plain)) ==
         Opening(None, Meta(VERSION, ALGO_AES256_GCM, keyID), plain)
  {
    UnwrapsOwn(ring[masterKey], wraps, nonce, dataKey);
    var wrapped := Wrapping(ring[masterKey], nonce, dataKey);
    OpenedContent(ring, masterKey, keyID, wrapped, Encrypted(ring[dataKey], CHUNK_SIZE, seed, plain));
    StreamRoundTrip(ring[dataKey], issued, CHUNK_SIZE, seed, plain);
  }

  /** Behind an envelope's own header and its stream's own header and seed, only
      the whole content is accepted. */
  lemma {:induction false} EnvelopeAcceptsExactly(ring: Ring, wraps: iset<Box>, issued: iset<Box>, masterKey: Bytes,
                                                  keyID: Bytes, dataKey: Bytes, nonce: Bytes, seed: Bytes, plain: Bytes,
                                                  body: Bytes)
    requires Usable(ring) && |masterKey| == KEY_SIZE && |keyID| <= MAX_KEY_ID_LEN && |dataKey| == KEY_SIZE &&
             |nonce| == NONCE_SIZE
    requires Ideal(ring[masterKey], wraps) && Box(nonce, [], dataKey) in wraps
    requires Decodable(ring[dataKey], issued, seed, Chunks(plain, CHUNK_SIZE)) &&
             Owns(issued, seed, Chunks(plain, CHUNK_SIZE))
    requires |Chunks(plain, CHUNK_SIZE)| < TWO_32
    ensures var wrapped, cs := Wrapping(ring[masterKey], nonce, dataKey), Chunks(plain, CHUNK_SIZE);
      && |wrapped| <= MAX_WRAPPED_KEY_LEN
      && var r := Opened(ring, masterKey, EnvelopeHeader(keyID, wrapped) + (Header(CHUNK_SIZE, seed) + body));
         && (r.error == None <==> Frames(ring[dataKey], seed, cs, 0, |cs|) <= body)
         && r.emitted <= plain && (r.error == None ==> r.emitted == plain && r.meta.keyID == keyID)
  {
    UnwrapsOwn(ring[masterKey], wraps, nonce, dataKey);
    var wrapped := Wrapping(ring[masterKey], nonce, dataKey);
    OpenedContent(ring, masterKey, keyID, wrapped, Header(CHUNK_SIZE, seed) + body);
    DecryptedBody(ring[dataKey], CHUNK_SIZE, seed, body);
    AcceptsExactly(ring[dataKey], issued, seed, Chunks(plain, CHUNK_SIZE), body);
    ChunksJoin(plain, CHUNK_SIZE);
  }
}
