/** The heartbeat payload of src/p2p/types.go: the known peers of a node. */
module Heartbeat {
  import opened Bytes
  import opened Codecs

  const MAX_PAYLOAD_SIZE := 0x10_0000
  const MAX_ADDR_LEN := 0xFFFF

  datatype PeerInfo = PeerInfo(id: int32, addr: Bytes)

  /** A length as a 16-bit field holds it. */
  function Low16(v: nat): uint16 {
    if v < TWO_16 then v else v % TWO_16
  }

  function PeerBytes(p: PeerInfo): (s: Bytes)
    ensures |s| == 6 + |p.addr|
  {
    Int32(p.id) + (Uint16(Low16(|p.addr|)) + p.addr)
  }

  function ParsePeer(s: Bytes): Parsed<PeerInfo> {
    if |s| < 6 then Bad(Ebadmsg)
    else
      var n := FromUint16(s[4..6]) as int;
      if |s| < 6 + n then Bad(Ebadmsg) else Done(PeerInfo(FromInt32(s[..4]), s[6..6 + n]), s[6 + n..])
  }

  ghost function PeerWriter(): (w: Writer<PeerInfo>)
    ensures IsWriter(w)
  {
    imap p :: PeerBytes(p)
  }

  ghost function PeerParser(): (p: Parser<PeerInfo>)
    ensures IsParser(p)
  {
    imap s :: ParsePeer(s)
  }

  /** Proofs about lists use any writer and parser of peers. */
  ghost predicate WritesPeers(w: Writer<PeerInfo>) {
    IsWriter(w) && forall p :: Writes(w, p)
  }

  ghost predicate Writes(w: Writer<PeerInfo>, p: PeerInfo) {
    p in w && w[p] == PeerBytes(p)
  }

  ghost predicate ParsesPeers(p: Parser<PeerInfo>) {
    IsParser(p) && forall s :: Parses(p, s)
  }

  ghost predicate Parses(p: Parser<PeerInfo>, s: Bytes) {
    s in p && p[s] == ParsePeer(s)
  }

  ghost function HeartbeatBytes(peers: seq<PeerInfo>): Bytes {
    Uint32(Low32(|peers|)) + WriteMany(PeerWriter(), peers, 0)
  }

  ghost function ParseHeartbeat(data: Bytes): Result<seq<PeerInfo>> {
    if |data| > MAX_PAYLOAD_SIZE || |data| < 4 then Err(Ebadmsg)
    else if FromUint32(data[..4]) as int > (|data| - 4) / 6 then Err(Einval)
    else
      var r := ParseMany(PeerParser(), data[4..], FromUint32(data[..4]));
      if r.Bad? then Err(r.error) else Ok(r.value)
  }

  // ---- round trip ----

  lemma {:induction false} PeerBack(p: PeerInfo, rest: Bytes)
    requires |p.addr| <= MAX_ADDR_LEN
    ensures ParsePeer(PeerBytes(p) + rest) == Done(p, rest)
  {
    var s, n := PeerBytes(p) + rest, |p.addr|;
    assert s[..4] == Int32(p.id) && s[4..6] == Uint16(n) && s[6..6 + n] == p.addr && s[6 + n..] == rest;
    RoundTripInt32(p.id);
    RoundTrip16(n);
  }

  /** Id, length and address. */
  lemma {:induction false} PeerLayout(p: PeerInfo)
    requires |p.addr| <= MAX_ADDR_LEN
    ensures PeerBytes(p)[..4] == Int32(p.id) && PeerBytes(p)[4..6] == Uint16(|p.addr|) && PeerBytes(p)[6..] == p.addr
  {}

  lemma {:induction false} PeersLength(w: Writer<PeerInfo>, peers: seq<PeerInfo>, i: nat)
    requires WritesPeers(w) && i <= |peers|
    ensures |WriteMany(w, peers, i)| >= 6 * (|peers| - i)
    decreases |peers| - i
  {
    if i < |peers| {
      assert Writes(w, peers[i]);
      PeersLength(w, peers, i + 1);
    }
  }

  predicate ShortAddr(p: PeerInfo) {
    |p.addr| <= MAX_ADDR_LEN
  }

  lemma {:induction false} PeersBack(p: Parser<PeerInfo>, w: Writer<PeerInfo>, peers: seq<PeerInfo>)
    requires ParsesPeers(p) && WritesPeers(w) && forall k :: 0 <= k < |peers| ==> ShortAddr(peers[k])
    ensures ParseMany(p, WriteMany(w, peers, 0), |peers|) == Done(peers, [])
  {
    var all := iset x | ShortAddr(x);
    forall k | 0 <= k < |peers| ensures ReadsBack(p, w, peers[k], peers[k] in all, Ebadmsg) {
      assert Writes(w, peers[k]);
      forall rest ensures p[w[peers[k]] + rest] == Done(peers[k], rest) {
        assert Parses(p, w[peers[k]] + rest);
        PeerBack(peers[k], rest);
      }
    }
    ManyBack(p, w, peers, 0, [], all, Ebadmsg);
    assert WriteMany(w, peers, 0) + [] == WriteMany(w, peers, 0);
    assert peers[0..] == peers;
  }

  /** No decoded address is longer than its 16-bit length can say. */
  lemma {:induction false} ParsedShort(p: Parser<PeerInfo>, s: Bytes, n: nat)
    requires ParsesPeers(p)
    ensures var m := ParseMany(p, s, n); m.Done? ==> forall k :: 0 <= k < |m.value| ==> ShortAddr(m.value[k])
    decreases n
  {
    if n > 0 {
      assert Parses(p, s);
      if p[s].Done? {
        assert ShortAddr(p[s].value);
        ParsedShort(p, p[s].rest, n - 1);
        var m, tail := ParseMany(p, s, n), ParseMany(p, p[s].rest, n - 1);
        if m.Done? {
          assert m.value == [p[s].value] + tail.value;
        }
      }
    }
  }

  lemma {:induction false} DecodedShort(data: Bytes)
    ensures var r := ParseHeartbeat(data); r.Ok? ==> forall k :: 0 <= k < |r.value| ==> ShortAddr(r.value[k])
  {
    ItselfParses();
    if |data| >= 4 {
      ParsedShort(PeerParser(), data[4..], FromUint32(data[..4]));
    }
  }

  /** A heartbeat comes back exactly if it fits the payload limit and no address is
      longer than 65535 bytes; one above the limit is refused. */
  lemma {:induction false} HeartbeatRoundTrip(peers: seq<PeerInfo>)
    ensures ParseHeartbeat(HeartbeatBytes(peers)) == Ok(peers) <==>
              |HeartbeatBytes(peers)| <= MAX_PAYLOAD_SIZE && forall k :: 0 <= k < |peers| ==> ShortAddr(peers[k])
    ensures |HeartbeatBytes(peers)| > MAX_PAYLOAD_SIZE ==> ParseHeartbeat(HeartbeatBytes(peers)) == Err(Ebadmsg)
  {
    var data, w := HeartbeatBytes(peers), PeerWriter();
    ItselfParses();
    ItselfWrites();
    PeersLength(w, peers, 0);
    DecodedShort(data);
    if |data| <= MAX_PAYLOAD_SIZE && forall k :: 0 <= k < |peers| ==> ShortAddr(peers[k]) {
      assert data[..4] == Uint32(|peers|) && data[4..] == WriteMany(w, peers, 0);
      RoundTrip32(|peers|);
      PeersBack(PeerParser(), w, peers);
    }
  }

  lemma {:induction false} ItselfParses()
    ensures ParsesPeers(PeerParser())
  {}

  lemma {:induction false} ItselfWrites()
    ensures WritesPeers(PeerWriter())
  {}

  /** A peer with an address of 65536 bytes comes back without any: the 16-bit length
      field says zero, and the bytes of the address are left over. */
  lemma {:induction false} LongAddressLost(id: int32, addr: Bytes)
    requires |addr| == TWO_16
    ensures ParseHeartbeat(HeartbeatBytes([PeerInfo(id, addr)])) == Ok([PeerInfo(id, [])])
  {
    var peer, w, p := PeerInfo(id, addr), PeerWriter(), PeerParser();
    ItselfParses();
    ItselfWrites();
    assert Writes(w, peer) && WriteMany(w, [peer], 1) == [];
    var data, s := HeartbeatBytes([peer]), PeerBytes(peer);
    assert data[..4] == Uint32(1) && data[4..] == s;
    RoundTrip32(1);
    assert s[..4] == Int32(id) && s[4..6] == Uint16(0) && s[6..6] == [];
    RoundTripInt32(id);
    RoundTrip16(0);
    assert Parses(p, s);
    assert ParseMany(p, p[s].rest, 0) == Done([], p[s].rest);
    assert [PeerInfo(id, [])] + [] == [PeerInfo(id, [])];
  }

  // ---- the code ----

  method Encode(peers: seq<PeerInfo>) returns (buf: array<byte>)
    ensures fresh(buf) && buf[..] == HeartbeatBytes(peers)
  {
    ghost var w := PeerWriter();
    ItselfWrites();
    var size := SizeOfPeers(w, peers);
    buf := new byte[4 + size];
    CopyInto(buf, 0, Uint32(Low32(|peers|)));
    WritePeers(buf, w, peers);
  }

  method SizeOfPeers(ghost w: Writer<PeerInfo>, peers: seq<PeerInfo>) returns (size: nat)
    requires WritesPeers(w)
    ensures size == |WriteMany(w, peers, 0)|
  {
    size := 0;
    for i := 0 to |peers|
      invariant size + |WriteMany(w, peers, i)| == |WriteMany(w, peers, 0)|
    {
      assert Writes(w, peers[i]);
      size := size + 4 + 2 + |peers[i].addr|;
    }
  }

  method WritePeers(buf: array<byte>, ghost w: Writer<PeerInfo>, peers: seq<PeerInfo>)
    requires WritesPeers(w) && buf.Length == 4 + |WriteMany(w, peers, 0)|
    modifies buf
    ensures buf[..] == old(buf[..4]) + WriteMany(w, peers, 0)
  {
    var off := 4;
    ghost var all := buf[..4] + WriteMany(w, peers, 0);
    for i := 0 to |peers|
      invariant 0 <= off <= buf.Length && off + |WriteMany(w, peers, i)| == buf.Length
      invariant buf[..off] + WriteMany(w, peers, i) == all
    {
      assert Writes(w, peers[i]);
      ghost var before, rest := buf[..off], WriteMany(w, peers, i + 1);
      off := WritePeer(buf, off, peers[i]);
      assert before + (w[peers[i]] + rest) == (before + w[peers[i]]) + rest;
    }
    assert buf[..off] == buf[..];
  }

  method WritePeer(buf: array<byte>, at: nat, p: PeerInfo) returns (off: nat)
    requires at + |PeerBytes(p)| <= buf.Length
    modifies buf
    ensures off == at + |PeerBytes(p)| && buf[..off] == old(buf[..at]) + PeerBytes(p)
  {
    off := at;
    CopyInto(buf, off, Int32(p.id));
    off := off + 4;
    CopyInto(buf, off, Uint16(Low16(|p.addr|)));
    off := off + 2;
    CopyInto(buf, off, p.addr);
    off := off + |p.addr|;
  }

  method Decode(data: Bytes) returns (r: Result<seq<PeerInfo>>)
    ensures r == ParseHeartbeat(data)
    ensures |data| < 4 || |data| > 0x10_0000 ==> r == Err(Ebadmsg)
    ensures 4 <= |data| <= 0x10_0000 && FromUint32(data[..4]) > (|data| - 4) / 6 ==> r == Err(Einval)
  {
    if |data| > MAX_PAYLOAD_SIZE {
      return Err(Ebadmsg);
    }
    if |data| < 4 {
      return Err(Ebadmsg);
    }
    var count := FromUint32(data[..4]) as int;
    var maxCount := (|data| - 4) / 6;
    if count > maxCount {
      return Err(Einval);
    }
    ItselfParses();
    r := ReadPeers(PeerParser(), data, count);
  }

  method ReadPeers(ghost p: Parser<PeerInfo>, data: Bytes, count: nat) returns (r: Result<seq<PeerInfo>>)
    requires ParsesPeers(p) && |data| >= 4
    ensures var m := ParseMany(p, data[4..], count); r == if m.Bad? then Err(m.error) else Ok(m.value)
  {
    ghost var all := ParseMany(p, data[4..], count);
    var peers: seq<PeerInfo>, off := [], 4;
    AfterNone(all);
    for i := 0 to count
      invariant 4 <= off <= |data| && After(peers, ParseMany(p, data[off..], count - i)) == all
    {
      assert Parses(p, data[off..]);
      var x, next := ReadPeer(data, off);
      if x.Err? {
        return Err(x.error);
      }
      ParseOne(p, data[off..], count - i, peers);
      peers, off := peers + [x.value], next;
    }
    assert peers + [] == peers;
    r := Ok(peers);
  }

  method ReadPeer(data: Bytes, at: nat) returns (r: Result<PeerInfo>, off: nat)
    requires at <= |data|
    ensures match r
      case Ok(p) => at <= off <= |data| && ParsePeer(data[at..]) == Done(p, data[off..])
      case Err(e) => ParsePeer(data[at..]) == Bad(e)
  {
    off := at;
    if off + 6 > |data| {
      return Err(Ebadmsg), off;
    }
    ghost var s := data[at..];
    var id := FromInt32(data[off..off + 4]);
    off := off + 4;
    var addrLen := FromUint16(data[off..off + 2]) as int;
    off := off + 2;
    assert s[..4] == data[at..at + 4] && s[4..6] == data[at + 4..at + 6];
    if off + addrLen > |data| {
      return Err(Ebadmsg), off;
    }
    var addr := data[off..off + addrLen];
    off := off + addrLen;
    assert s[6..6 + addrLen] == addr && s[6 + addrLen..] == data[off..];
    r := Ok(PeerInfo(id, addr));
  }
}
