module Lease {

  // The lease quorum protocol of src/p2p/lease.go.
  //
  // `LeaseManager` is one node: its methods are the message handlers, the expiry
  // sweep and the pieces of Acquire and Release, each proved against a function on
  // the node's state. `Cluster` puts the nodes on a network with delayed, lost and
  // reordered messages under one global clock, and a run interleaves the handlers
  // freely. Times are integers; a lease is unexpired while the clock is before its
  // expiry.

  // ---- one node ----

  datatype Lease = Lease(id: nat, holder: nat, key: string, expiry: int, quorumSize: nat)

  /** An Acquire call that waits for answers: `inbox` is its channel of the
      given capacity, `grants` the count of its loop. */
  datatype Call = Call(key: string, expiry: int, quorum: nat, capacity: nat, inbox: seq<bool>, grants: nat)

  datatype Manager = Manager(granted: map<string, int>, held: map<nat, Lease>, pending: map<nat, Call>, lastId: nat)

  /** The quorum among `peerCount` other nodes. */
  function MajorityQuorum(peerCount: nat): (q: nat)
    ensures peerCount > 0 ==> peerCount < 2 * q <= peerCount + 2
    ensures q <= peerCount && (q == 0 <==> peerCount == 0)
  {
    if peerCount == 0 then 0 else peerCount / 2 + 1
  }

  /** A grant of the key is in force. */
  predicate Engaged(m: Manager, now: int, key: string) {
    key in m.granted && m.granted[key] > now
  }

  /** A request is denied, with expiry 0, while another grant of the key is in
      force; otherwise the grant is recorded. */
  function OnRequest(m: Manager, now: int, key: string, expiry: int): (Manager, int) {
    if Engaged(m, now, key) then (m, 0)
    else (m.(granted := m.granted[key := expiry]), expiry)
  }

  /** An answer goes to the waiting call, unless its channel is full. */
  function OnGrant(m: Manager, id: nat, expiry: int): Manager {
    if id in m.pending && |m.pending[id].inbox| < m.pending[id].capacity then
      m.(pending := m.pending[id := m.pending[id].(inbox := m.pending[id].inbox + [expiry != 0])])
    else m
  }

  function OnRelease(m: Manager, key: string): Manager {
    m.(granted := m.granted - {key})
  }

  function Cleaned(m: Manager, now: int): Manager {
    m.(granted := map k <- m.granted | m.granted[k] >= now :: m.granted[k],
       held := map i <- m.held | m.held[i].expiry >= now :: m.held[i])
  }

  /** A call whose count has reached the quorum becomes a held lease. */
  function Settled(m: Manager, self: nat, id: nat): Manager {
    if id in m.pending && m.pending[id].grants >= m.pending[id].quorum then
      var c := m.pending[id];
      m.(pending := m.pending - {id}, held := m.held[id := Lease(id, self, c.key, c.expiry, c.grants)])
    else m
  }

  /** Acquire up to its loop, when `sent` peers could be contacted. */
  function Opened(m: Manager, self: nat, key: string, expiry: int, peerCount: nat, sent: nat): Manager {
    var id, quorum := m.lastId + 1, MajorityQuorum(peerCount);
    var m' := m.(lastId := id);
    if sent < quorum then m'
    else Settled(m'.(pending := m'.pending[id := Call(key, expiry, quorum, peerCount, [], 0)]), self, id)
  }

  /** One turn of the loop of Acquire that takes an answer from the channel. */
  function Collected(m: Manager, self: nat, id: nat): Manager {
    if id in m.pending && m.pending[id].inbox != [] then
      var c := m.pending[id];
      var c' := c.(inbox := c.inbox[1..], grants := c.grants + if c.inbox[0] then 1 else 0);
      Settled(m.(pending := m.pending[id := c']), self, id)
    else m
  }

  datatype Outcome = Pending(id: nat) | Unreachable | TooFewPeers

  class LeaseManager {
    const localID: nat
    var granted: map<string, int>
    var held: map<nat, Lease>
    var pending: map<nat, Call>
    var lastId: nat

    constructor (localID: nat)
      ensures this.localID == localID && State() == Manager(map[], map[], map[], 0)
    {
      this.localID := localID;
      granted, held, pending, lastId := map[], map[], map[], 0;
    }

    ghost function State(): Manager
      reads this
    {
      Manager(granted, held, pending, lastId)
    }

    method HandleLeaseRequest(now: int, key: string, expiry: int) returns (reply: int)
      modifies this
      ensures (State(), reply) == OnRequest(old(State()), now, key, expiry)
      ensures reply == 0 || reply == expiry
      ensures if key in old(granted) && old(granted)[key] > now then reply == 0 && granted == old(granted)
              else reply == expiry && granted == old(granted)[key := expiry]
      ensures held == old(held) && pending == old(pending) && lastId == old(lastId)
    {
      if key in granted && granted[key] > now {
        return 0;
      }
      granted := granted[key := expiry];
      reply := expiry;
    }

    method HandleLeaseGrant(id: nat, expiry: int)
      modifies this
      ensures State() == OnGrant(old(State()), id, expiry)
      ensures id in old(pending) && |old(pending)[id].inbox| < old(pending)[id].capacity ==>
                id in pending && pending[id] == old(pending)[id].(inbox := old(pending)[id].inbox + [expiry != 0])
      ensures forall i <- old(pending) :: i in pending && (i != id ==> pending[i] == old(pending)[i])
      ensures granted == old(granted) && held == old(held) && lastId == old(lastId)
    {
      if id !in pending {
        return;
      }
      var call := pending[id];
      if |call.inbox| < call.capacity {
        pending := pending[id := call.(inbox := call.inbox + [expiry != 0])];
      }
    }

    method HandleLeaseRelease(key: string)
      modifies this
      ensures State() == OnRelease(old(State()), key)
      ensures granted == old(granted) - {key} && held == old(held) && pending == old(pending) && lastId == old(lastId)
    {
      granted := granted - {key};
    }

    /** The sweep drops what has expired and nothing else. */
    method CleanupExpired(now: int)
      modifies this
      ensures State() == Cleaned(old(State()), now)
      ensures forall k :: k in granted <==> k in old(granted) && old(granted)[k] >= now
      ensures forall k <- granted :: granted[k] == old(granted)[k]
      ensures forall id :: id in held <==> id in old(held) && old(held)[id].expiry >= now
      ensures forall id <- held :: held[id] == old(held)[id]
      ensures pending == old(pending) && lastId == old(lastId)
    {
      ghost var before := State();
      var keys := granted.Keys;
      while keys != {}
        invariant keys <= granted.Keys <= before.granted.Keys
        invariant forall k <- granted :: granted[k] == before.granted[k]
        invariant forall k <- before.granted :: k in granted <==> k in keys || before.granted[k] >= now
        invariant held == before.held && pending == before.pending && lastId == before.lastId
      {
        var key :| key in keys;
        if granted[key] < now {
          granted := granted - {key};
        }
        keys := keys - {key};
      }
      assert granted == Cleaned(before, now).granted;
      var ids := held.Keys;
      while ids != {}
        invariant ids <= held.Keys <= before.held.Keys
        invariant forall i <- held :: held[i] == before.held[i]
        invariant forall i <- before.held :: i in held <==> i in ids || before.held[i].expiry >= now
        invariant granted == Cleaned(before, now).granted && pending == before.pending && lastId == before.lastId
      {
        var id :| id in ids;
        if held[id].expiry < now {
          held := held - {id};
        }
        ids := ids - {id};
      }
      assert held == Cleaned(before, now).held;
    }

    /** Acquire up to its loop: `alive` are the peers seen alive, `configured`
        the size of the peer map, `sent` what the broadcast returned. */
    method BeginAcquire(alive: seq<nat>, configured: nat, sent: nat, now: int, key: string, duration: int)
      returns (r: Outcome)
      modifies this
      ensures var peers := |Others(alive, localID)|;
        if configured > 0 && peers == 0 then r == Unreachable && State() == old(State())
        else && State() == Opened(old(State()), localID, key, now + duration, peers, sent)
             && r == if sent < MajorityQuorum(peers) then TooFewPeers else Pending(lastId)
      ensures r.Pending? ==>
                var peers := |Others(alive, localID)|;
                && r.id == lastId == old(lastId) + 1
                && if peers > 0
                   then r.id in pending && pending[r.id] == Call(key, now + duration, peers / 2 + 1, peers, [], 0)
                   else r.id in held && held[r.id] == Lease(r.id, localID, key, now + duration, 0)
      ensures granted == old(granted) && (forall i <- old(held) :: i != lastId ==> i in held && held[i] == old(held)[i])
    {
      var peerCount := 0;
      for i := 0 to |alive|
        invariant peerCount == |Others(alive[..i], localID)|
      {
        assert alive[..i + 1][..i] == alive[..i];
        if alive[i] != localID {
          peerCount := peerCount + 1;
        }
      }
      assert alive[..|alive|] == alive;
      if configured > 0 && peerCount == 0 {
        return Unreachable;
      }
      var quorum := MajorityQuorum(peerCount);
      lastId := lastId + 1;
      if sent < quorum {
        return TooFewPeers;
      }
      r := Pending(lastId);
      if 0 < quorum {
        pending := pending[lastId := Call(key, now + duration, quorum, peerCount, [], 0)];
      } else {
        ghost var waiting := pending[lastId := Call(key, now + duration, quorum, peerCount, [], 0)];
        assert pending - {lastId} == waiting - {lastId};
        pending := pending - {lastId};
        held := held[lastId := Lease(lastId, localID, key, now + duration, 0)];
      }
    }

    /** One receive from the channel in the loop of Acquire. */
    method Collect(id: nat)
      modifies this
      ensures State() == Collected(old(State()), localID, id)
      ensures id in old(pending) && old(pending)[id].inbox != [] ==>
                var call := old(pending)[id];
                var grants := call.grants + if call.inbox[0] then 1 else 0;
                if grants >= call.quorum
                then id !in pending && id in held && held[id] == Lease(id, localID, call.key, call.expiry, grants)
                else id in pending && pending[id] == call.(inbox := call.inbox[1..], grants := grants)
      ensures granted == old(granted) && lastId == old(lastId)
    {
      if id !in pending || pending[id].inbox == [] {
        return;
      }
      var call := pending[id];
      var grants := call.grants + if call.inbox[0] then 1 else 0;
      ghost var next := pending[id := call.(inbox := call.inbox[1..], grants := grants)];
      if grants >= call.quorum {
        assert pending - {id} == next - {id};
        pending := pending - {id};
        held := held[id := Lease(id, localID, call.key, call.expiry, grants)];
      } else {
        pending := pending[id := call.(inbox := call.inbox[1..], grants := grants)];
      }
    }

    /** ReleaseByKey gives up one held lease of the key, if there is one. */
    method ReleaseByKey(key: string) returns (released: set<nat>)
      modifies this
      ensures |released| <= 1 && (released == {} <==> forall i <- old(held) :: old(held)[i].key != key)
      ensures forall i <- released :: i in old(held) && old(held)[i].key == key
      ensures State() == old(State()).(held := old(held) - released)
    {
      released := {};
      var ids := held.Keys;
      while ids != {}
        invariant ids <= held.Keys && held == old(held)
        invariant forall i <- held :: i in ids || held[i].key != key
        invariant State() == old(State()) && released == {}
      {
        var id :| id in ids;
        if held[id].key == key {
          held := held - {id};
          return {id};
        }
        ids := ids - {id};
      }
      assert held - {} == held;
    }
  }

  /** The listed peers other than `self`. */
  function Others(peers: seq<nat>, self: nat): seq<nat> {
    if peers == [] then []
    else
      var n := |peers| - 1;
      Others(peers[..n], self) + if peers[n] != self then [peers[n]] else []
  }

  // ---- the loop of Acquire as a whole ----

  /** What the select of the loop receives. */
  datatype Signal = Answer(granted: bool) | Timeout | Stopped

  datatype Ending = Won(grants: nat) | TimedOut | Cancelled | Waiting(grants: nat)

  /** The grants among the first `i` signals. */
  function Grants(signals: seq<Signal>, i: nat): nat
    requires i <= |signals|
  {
    if i == 0 then 0 else Grants(signals, i - 1) + if signals[i - 1] == Answer(true) then 1 else 0
  }

  /** The loop is won exactly when `quorum` grants arrive before anything that
      ends the wait, and then with exactly `quorum` of them. */
  method AwaitQuorum(signals: seq<Signal>, quorum: nat) returns (r: Ending)
    ensures r.Won? <==> exists i ::
              && 0 <= i <= |signals| && Grants(signals, i) == quorum
              && forall j :: 0 <= j < i ==> signals[j].Answer?
    ensures r.Won? ==> r.grants == quorum
    ensures r.TimedOut? ==> Timeout in signals
    ensures r.Cancelled? ==> Stopped in signals
    ensures r.Waiting? ==> r.grants == Grants(signals, |signals|) < quorum && forall s <- signals :: s.Answer?
  {
    var grants, i := 0, 0;
    while grants < quorum
      invariant i <= |signals| && grants == Grants(signals, i) <= quorum
      invariant forall j :: 0 <= j < i ==> signals[j].Answer?
      decreases |signals| - i
    {
      if i == |signals| {
        NoneReached(signals, i, quorum);
        return Waiting(grants);
      }
      match signals[i] {
        case Answer(granted) =>
          if granted {
            grants := grants + 1;
          }
        case Timeout =>
          NoneReached(signals, i, quorum);
          return TimedOut;
        case Stopped =>
          NoneReached(signals, i, quorum);
          return Cancelled;
      }
      i := i + 1;
    }
    r := Won(grants);
  }

  lemma {:induction false} NoneReached(signals: seq<Signal>, i: nat, quorum: nat)
    requires i <= |signals| && Grants(signals, i) < quorum
    ensures forall j :: 0 <= j <= i ==> Grants(signals, j) < quorum
  {
    if i > 0 {
      assert Grants(signals, i - 1) <= Grants(signals, i);
      NoneReached(signals, i - 1, quorum);
    }
  }

  // ---- the cluster ----

  /** One Acquire call of one node. */
  datatype Ticket = Ticket(holder: nat, id: nat)

  datatype Message =
    | Request(src: nat, dst: nat, id: nat, key: string, expiry: int)
    | Reply(src: nat, dst: nat, id: nat, key: string, expiry: int)
    | Release(src: nat, dst: nat, id: nat, key: string)

  /** What happened to a ticket so far: the nodes that granted it, those whose
      grant reached the holder, and whether the lease was won and released. */
  datatype Record = Record(key: string, expiry: int, votes: set<nat>, counted: set<nat>, won: bool, released: bool)

  /** `log` and `owner` are history: no node reads them. `owner` says whose
      ticket the last recorded grant of a key at a node was for. */
  datatype Cluster = Cluster(now: int, managers: seq<Manager>, network: set<Message>,
                             log: map<Ticket, Record>, owner: map<(nat, string), Ticket>)

  /** The nodes of a cluster of size `n`. */
  function Nodes(n: nat): (s: set<nat>)
    ensures |s| == n && forall v :: v in s <==> 0 <= v < n
  {
    if n == 0 then {} else Nodes(n - 1) + {n - 1}
  }

  function Peers(n: nat, self: nat): (s: set<nat>)
    ensures self < n ==> |s| == n - 1
  {
    Nodes(n) - {self}
  }

  function Idle(n: nat): seq<Manager> {
    if n == 0 then [] else Idle(n - 1) + [Manager(map[], map[], map[], 0)]
  }

  /** All nodes have just started. */
  function Boot(n: nat, now: int): Cluster {
    Cluster(now, Idle(n), {}, map[], map[])
  }

  lemma {:induction false} AllIdle(n: nat)
    ensures |Idle(n)| == n && forall i :: 0 <= i < n ==> Idle(n)[i] == Manager(map[], map[], map[], 0)
  {
    if n > 0 {
      AllIdle(n - 1);
    }
  }

  datatype Event =
    | Tick(span: nat)
    | Acquire(node: nat, key: string, duration: int, alive: set<nat>, reached: set<nat>)
    | Deliver(message: Message)
    | Lose(message: Message)
    | Collect(node: nat, id: nat)
    | GiveUp(node: nat, id: nat)
    | Cleanup(node: nat)
    | Announce(ticket: Ticket)
    | Forget(ticket: Ticket)

  /** Release announces and then forgets, ReleaseByKey the other way round; both
      need a lease that Acquire returned. */
  ghost predicate Enabled(c: Cluster, e: Event) {
    var n := |c.managers|;
    match e
    case Tick(_) => true
    case Acquire(node, _, _, alive, reached) => node < n && alive <= Peers(n, node) && reached <= Peers(n, node)
    case Deliver(m) => m in c.network && m.dst < n
    case Lose(m) => m in c.network
    case Collect(node, _) => node < n
    case GiveUp(node, _) => node < n
    case Cleanup(node) => node < n
    case Announce(t) => t.holder < n && t in c.log && c.log[t].won
    case Forget(t) => t.holder < n && t in c.log && c.log[t].won
  }

  function With(c: Cluster, i: nat, m: Manager): Cluster
    requires i < |c.managers|
  {
    c.(managers := c.managers[i := m])
  }

  ghost function Next(c: Cluster, e: Event): Cluster
    requires Enabled(c, e)
  {
    match e
    case Tick(span) => c.(now := c.now + span)
    case Acquire(node, key, duration, alive, reached) => AcquireStep(c, node, key, c.now + duration, alive, reached)
    case Deliver(m) =>
      if m.Request? then RequestStep(c, m) else if m.Reply? then ReplyStep(c, m) else ReleaseStep(c, m)
    case Lose(m) => c.(network := c.network - {m})
    case Collect(node, id) => CollectStep(c, node, id)
    case GiveUp(node, id) => With(c, node, c.managers[node].(pending := c.managers[node].pending - {id}))
    case Cleanup(node) => With(c, node, Cleaned(c.managers[node], c.now))
    case Announce(t) => AnnounceStep(c, t)
    case Forget(t) => With(c, t.holder, c.managers[t.holder].(held := c.managers[t.holder].held - {t.id}))
  }

  ghost function AcquireStep(c: Cluster, node: nat, key: string, expiry: int, alive: set<nat>,
                             reached: set<nat>): Cluster
    requires node < |c.managers|
  {
    if |c.managers| > 1 && alive == {} then c
    else
      var m := Opened(c.managers[node], node, key, expiry, |alive|, |reached|);
      var id := m.lastId;
      With(c, node, m).(
        network := c.network + set v <- reached :: Request(node, v, id, key, expiry),
        log := c.log[Ticket(node, id) := Record(key, expiry, {}, {}, alive == {}, false)])
  }

  ghost function RequestStep(c: Cluster, q: Message): Cluster
    requires q.Request? && q.dst < |c.managers|
  {
    var (m, expiry) := OnRequest(c.managers[q.dst], c.now, q.key, q.expiry);
    var c' := c.(network := c.network - {q} + {Reply(q.dst, q.src, q.id, q.key, expiry)});
    if Engaged(c.managers[q.dst], c.now, q.key) then c'
    else
      var t := Ticket(q.src, q.id);
      With(c', q.dst, m).(
        log := if t in c.log then c.log[t := c.log[t].(votes := c.log[t].votes + {q.dst})] else c.log,
        owner := c.owner[(q.dst, q.key) := t])
  }

  ghost function ReplyStep(c: Cluster, r: Message): Cluster
    requires r.Reply? && r.dst < |c.managers|
  {
    var t := Ticket(r.dst, r.id);
    With(c, r.dst, OnGrant(c.managers[r.dst], r.id, r.expiry)).(
      network := c.network - {r},
      log := if r.expiry != 0 && t in c.log then c.log[t := c.log[t].(counted := c.log[t].counted + {r.src})]
             else c.log)
  }

  /** A release stays in the network: calling Release twice sends it twice. */
  ghost function ReleaseStep(c: Cluster, r: Message): Cluster
    requires r.Release? && r.dst < |c.managers|
  {
    With(c, r.dst, OnRelease(c.managers[r.dst], r.key))
  }

  ghost function CollectStep(c: Cluster, node: nat, id: nat): Cluster
    requires node < |c.managers|
  {
    var m := Collected(c.managers[node], node, id);
    var t := Ticket(node, id);
    With(c, node, m).(
      log := if id in c.managers[node].pending && id !in m.pending && t in c.log then c.log[t := c.log[t].(won := true)]
             else c.log)
  }

  ghost function AnnounceStep(c: Cluster, t: Ticket): Cluster
    requires t in c.log
  {
    c.(network := c.network + set v <- Peers(|c.managers|, t.holder) :: Release(t.holder, v, t.id, c.log[t].key),
       log := c.log[t := c.log[t].(released := true)])
  }

  // ---- safety ----

  /** Acquire sees every other node alive. */
  ghost predicate SeesAll(c: Cluster, e: Event) {
    e.Acquire? ==> e.alive == Peers(|c.managers|, e.node)
  }

  /** A release is handled only where the current grant, if there is one, is the
      released one. */
  ghost predicate OwnRelease(c: Cluster, e: Event) {
    e.Deliver? && e.message.Release? ==>
      var m := e.message;
      m.dst < |c.managers| && m.key in c.managers[m.dst].granted ==>
        (m.dst, m.key) in c.owner && c.owner[(m.dst, m.key)] == Ticket(m.src, m.id)
  }

  /** The conditions of the safety theorem. */
  ghost predicate Proper(c: Cluster, e: Event) {
    SeesAll(c, e) && OwnRelease(c, e)
  }

  /** The node has the ticket's lease among those it holds, unexpired. */
  ghost predicate Keeps(c: Cluster, t: Ticket, key: string) {
    && t.holder < |c.managers| && t.id in c.managers[t.holder].held
    && c.managers[t.holder].held[t.id].key == key
    && c.now < c.managers[t.holder].held[t.id].expiry
  }

  /** Moreover, its release was not announced: Release tells the peers first and
      drops the lease from the node's map afterwards. */
  ghost predicate Holds(c: Cluster, t: Ticket, key: string) {
    Keeps(c, t, key) && !(t in c.log && c.log[t].released)
  }

  ghost predicate Safe(c: Cluster) {
    forall t, u, key :: Holds(c, t, key) && Holds(c, u, key) ==> t == u
  }

  ghost predicate RecordOk(c: Cluster, t: Ticket)
    requires t in c.log
  {
    var r := c.log[t];
    && t.holder < |c.managers| && t.id <= c.managers[t.holder].lastId
    && r.counted <= r.votes <= Peers(|c.managers|, t.holder)
    && (r.released ==> r.won)
  }

  function Trues(inbox: seq<bool>): nat {
    if inbox == [] then 0 else (if inbox[0] then 1 else 0) + Trues(inbox[1..])
  }

  ghost predicate CallOk(c: Cluster, node: nat, id: nat)
    requires node < |c.managers| && id in c.managers[node].pending
  {
    var p, t := c.managers[node].pending[id], Ticket(node, id);
    && t in c.log && p.key == c.log[t].key && p.expiry == c.log[t].expiry && !c.log[t].won
    && p.quorum == MajorityQuorum(|c.managers| - 1) && p.grants + Trues(p.inbox) <= |c.log[t].counted|
  }

  ghost predicate LeaseOk(c: Cluster, node: nat, id: nat)
    requires node < |c.managers| && id in c.managers[node].held
  {
    var l, t := c.managers[node].held[id], Ticket(node, id);
    && t in c.log && l.key == c.log[t].key && l.expiry == c.log[t].expiry && c.log[t].won
    && MajorityQuorum(|c.managers| - 1) <= |c.log[t].votes|
  }

  ghost predicate MessageOk(c: Cluster, m: Message) {
    match m
    case Request(src, dst, id, key, expiry) =>
      var t := Ticket(src, id);
      && t in c.log && key == c.log[t].key && expiry == c.log[t].expiry
      && dst in Peers(|c.managers|, src) && dst !in c.log[t].votes
    case Reply(src, dst, id, key, expiry) =>
      var t := Ticket(dst, id);
      && t in c.log && dst < |c.managers|
      && (expiry != 0 ==>
            && key == c.log[t].key && expiry == c.log[t].expiry
            && src in c.log[t].votes && src !in c.log[t].counted)
    case Release(src, dst, id, key) =>
      var t := Ticket(src, id);
      t in c.log && key == c.log[t].key && c.log[t].released
  }

  /** The grant of a voter is in force as long as the ticket can matter. */
  ghost predicate VoteOk(c: Cluster, t: Ticket, v: nat)
    requires t in c.log
  {
    var r := c.log[t];
    v in r.votes && !r.released && c.now < r.expiry ==>
      && v < |c.managers| && r.key in c.managers[v].granted && c.managers[v].granted[r.key] == r.expiry
      && (v, r.key) in c.owner && c.owner[(v, r.key)] == t
  }

  /** The things the invariant speaks of. */
  datatype Item = OfTicket(ticket: Ticket) | OfCall(node: nat, id: nat) | OfLease(node: nat, id: nat)
                | OfMessage(message: Message) | OfVote(ticket: Ticket, voter: nat)

  ghost predicate ItemOk(c: Cluster, i: Item) {
    match i
    case OfTicket(t) => t in c.log ==> RecordOk(c, t)
    case OfCall(node, id) => node < |c.managers| && id in c.managers[node].pending ==> CallOk(c, node, id)
    case OfLease(node, id) => node < |c.managers| && id in c.managers[node].held ==> LeaseOk(c, node, id)
    case OfMessage(m) => m in c.network ==> MessageOk(c, m)
    case OfVote(t, v) => t in c.log ==> VoteOk(c, t, v)
  }

  ghost predicate Inv(c: Cluster) {
    |c.managers| >= 2 && forall i :: ItemOk(c, i)
  }

  lemma {:induction false} SubsetSize(a: set<nat>, b: set<nat>)
    requires a <= b
    ensures |a| <= |b|
  {
    assert b == a + (b - a);
  }

  /** In a cluster of odd size any two quorums share a voter. */
  lemma {:induction false} QuorumsMeet(n: nat, a: set<nat>, b: set<nat>) returns (v: nat)
    requires n % 2 == 1 && n >= 3
    requires a <= Nodes(n) && b <= Nodes(n)
    requires MajorityQuorum(n - 1) <= |a| && MajorityQuorum(n - 1) <= |b|
    ensures v in a && v in b
  {
    SubsetSize(a + b, Nodes(n));
    assert |a + b| == |a| + |b| - |a * b|;
    assert a * b != {};
    v :| v in a * b;
  }

  lemma {:induction false} InvSafe(c: Cluster)
    requires Inv(c) && |c.managers| % 2 == 1
    ensures Safe(c)
  {
    forall t, u, key | Holds(c, t, key) && Holds(c, u, key) ensures t == u {
      assert ItemOk(c, OfLease(t.holder, t.id)) && ItemOk(c, OfLease(u.holder, u.id));
      assert t == Ticket(t.holder, t.id) && u == Ticket(u.holder, u.id);
      assert ItemOk(c, OfTicket(t)) && ItemOk(c, OfTicket(u));
      var v := QuorumsMeet(|c.managers|, c.log[t].votes, c.log[u].votes);
      assert ItemOk(c, OfVote(t, v)) && ItemOk(c, OfVote(u, v));
    }
  }

  /** The sweep takes no lease from its holder that has not expired. */
  lemma {:induction false} CleanupSpares(c: Cluster, node: nat, t: Ticket, key: string)
    requires node < |c.managers| && Keeps(c, t, key)
    ensures Keeps(Next(c, Cleanup(node)), t, key)
  {
    var m := Cleaned(c.managers[t.holder], c.now);
    assert t.id in m.held && m.held[t.id] == c.managers[t.holder].held[t.id];
  }

  lemma {:induction false} OpenedElsewhere(m: Manager, self: nat, key: string, expiry: int, peerCount: nat, sent: nat)
    ensures var m' := Opened(m, self, key, expiry, peerCount, sent);
      forall id <- m.held :: id <= m.lastId ==> id in m'.held && m'.held[id] == m.held[id]
  {}

  lemma {:induction false} CollectedElsewhere(m: Manager, self: nat, id: nat, other: nat)
    requires other in m.held && other !in m.pending
    ensures var m' := Collected(m, self, id); other in m'.held && m'.held[other] == m.held[other]
  {}

  /** The ticket is that of a lease in its holder's map, and of no waiting call. */
  ghost predicate Returned(c: Cluster, t: Ticket) {
    && t.holder < |c.managers| && t.id in c.managers[t.holder].held
    && t.id !in c.managers[t.holder].pending && t.id <= c.managers[t.holder].lastId
  }

  lemma {:induction false} KeptIsReturned(c: Cluster, t: Ticket, key: string)
    requires Inv(c) && Keeps(c, t, key)
    ensures Returned(c, t)
  {
    assert ItemOk(c, OfLease(t.holder, t.id)) && t == Ticket(t.holder, t.id);
    assert ItemOk(c, OfTicket(t)) && ItemOk(c, OfCall(t.holder, t.id));
  }

  lemma {:induction false} AcquireSpares(c: Cluster, e: Event, t: Ticket, key: string)
    requires e.Acquire? && Enabled(c, e) && Returned(c, t) && Keeps(c, t, key)
    ensures Keeps(Next(c, e), t, key)
  {
    OpenedElsewhere(c.managers[e.node], e.node, e.key, c.now + e.duration, |e.alive|, |e.reached|);
  }

  lemma {:induction false} CollectSpares(c: Cluster, e: Event, t: Ticket, key: string)
    requires e.Collect? && Enabled(c, e) && Returned(c, t) && Keeps(c, t, key)
    ensures Keeps(Next(c, e), t, key)
  {
    if e.node == t.holder {
      CollectedElsewhere(c.managers[e.node], e.node, e.id, t.id);
    }
  }

  lemma {:induction false} DeliverSpares(c: Cluster, e: Event, t: Ticket, key: string)
    requires e.Deliver? && Enabled(c, e) && Keeps(c, t, key)
    ensures Keeps(Next(c, e), t, key)
  {}

  /** A lease stays with its holder through every event, except that the holder gives
      it up or that its time runs out. */
  lemma {:induction false} LeaseStays(c: Cluster, e: Event, t: Ticket, key: string)
    requires Inv(c) && Enabled(c, e) && Keeps(c, t, key)
    ensures Keeps(Next(c, e), t, key) <==>
              && e != Forget(t)
              && (e.Tick? ==> c.now + e.span < c.managers[t.holder].held[t.id].expiry)
  {
    KeptIsReturned(c, t, key);
    match e
    case Cleanup(node) => CleanupSpares(c, node, t, key);
    case Acquire(_, _, _, _, _) => AcquireSpares(c, e, t, key);
    case Collect(_, _) => CollectSpares(c, e, t, key);
    case Deliver(_) => DeliverSpares(c, e, t, key);
    case _ =>
  }

  // Every step keeps the invariant, one item at a time.

  lemma {:induction false} RequestKeeps(c: Cluster, q: Message, i: Item)
    requires q.Request? && q.dst < |c.managers| && MessageOk(c, q) && RecordOk(c, Ticket(q.src, q.id)) && ItemOk(c, i)
    ensures ItemOk(RequestStep(c, q), i)
  {
    match i
    case OfTicket(t) => if t in c.log { RequestRecord(c, q, t); }
    case OfMessage(m) => if m in RequestStep(c, q).network { RequestMessage(c, q, m); }
    case OfVote(t, v) => if t in c.log { RequestVote(c, q, t, v); }
    case _ => RequestKeepsNode(c, q, i);
  }

  lemma {:induction false} RequestRecord(c: Cluster, q: Message, t: Ticket)
    requires q.Request? && q.dst < |c.managers| && MessageOk(c, q) && t in c.log && RecordOk(c, t)
    ensures t in RequestStep(c, q).log && RecordOk(RequestStep(c, q), t)
  {}

  lemma {:induction false} RequestMessage(c: Cluster, q: Message, m: Message)
    requires q.Request? && q.dst < |c.managers| && MessageOk(c, q) && RecordOk(c, Ticket(q.src, q.id))
    requires m in RequestStep(c, q).network && (m in c.network ==> MessageOk(c, m))
    ensures MessageOk(RequestStep(c, q), m)
  {}

  lemma {:induction false} RequestVote(c: Cluster, q: Message, t: Ticket, v: nat)
    requires q.Request? && q.dst < |c.managers| && MessageOk(c, q) && t in c.log && VoteOk(c, t, v)
    ensures t in RequestStep(c, q).log && VoteOk(RequestStep(c, q), t, v)
  {}

  lemma {:induction false} RequestKeepsNode(c: Cluster, q: Message, i: Item)
    requires q.Request? && q.dst < |c.managers| && MessageOk(c, q) && ItemOk(c, i) && (i.OfCall? || i.OfLease?)
    ensures ItemOk(RequestStep(c, q), i)
  {
    if i.OfLease? && i.node < |c.managers| && i.id in c.managers[i.node].held {
      SubsetSize(c.log[Ticket(i.node, i.id)].votes, RequestStep(c, q).log[Ticket(i.node, i.id)].votes);
    }
  }

  lemma {:induction false} ReplyKeeps(c: Cluster, r: Message, i: Item)
    requires r.Reply? && r.dst < |c.managers| && MessageOk(c, r) && ItemOk(c, i)
    ensures ItemOk(ReplyStep(c, r), i)
  {
    if i.OfCall? {
      ReplyKeepsCall(c, r, i);
    }
  }

  lemma {:induction false} ReplyKeepsCall(c: Cluster, r: Message, i: Item)
    requires r.Reply? && r.dst < |c.managers| && MessageOk(c, r) && ItemOk(c, i) && i.OfCall?
    ensures ItemOk(ReplyStep(c, r), i)
  {
    if i.node < |c.managers| && i.id in c.managers[i.node].pending {
      TruesSnoc(c.managers[i.node].pending[i.id].inbox, r.expiry != 0);
    }
  }

  lemma {:induction false} TruesSnoc(s: seq<bool>, b: bool)
    ensures Trues(s + [b]) == Trues(s) + if b then 1 else 0
  {
    if s == [] {
      assert s + [b] == [b];
    } else {
      TruesSnoc(s[1..], b);
      assert (s + [b])[1..] == s[1..] + [b];
    }
  }

  lemma {:induction false} ReleaseKeeps(c: Cluster, r: Message, i: Item)
    requires r.Release? && r.dst < |c.managers| && MessageOk(c, r) && Proper(c, Deliver(r)) && ItemOk(c, i)
    ensures ItemOk(ReleaseStep(c, r), i)
  {}

  lemma {:induction false} CollectKeeps(c: Cluster, node: nat, id: nat, i: Item)
    requires node < |c.managers| && ItemOk(c, i) && ItemOk(c, OfCall(node, id)) && ItemOk(c, OfTicket(Ticket(node, id)))
    ensures ItemOk(CollectStep(c, node, id), i)
  {
    match i
    case OfCall(n, k) => CollectCall(c, node, id, n, k);
    case OfLease(n, k) => CollectLease(c, node, id, n, k);
    case OfVote(t, v) => if t in c.log { CollectVote(c, node, id, t, v); }
    case OfMessage(m) => if m in c.network { CollectMessage(c, node, id, m); }
    case OfTicket(t) =>
  }

  lemma {:induction false} CollectVote(c: Cluster, node: nat, id: nat, t: Ticket, v: nat)
    requires node < |c.managers| && t in c.log && VoteOk(c, t, v)
    ensures t in CollectStep(c, node, id).log && VoteOk(CollectStep(c, node, id), t, v)
  {}

  lemma {:induction false} CollectMessage(c: Cluster, node: nat, id: nat, m: Message)
    requires node < |c.managers| && MessageOk(c, m)
    ensures MessageOk(CollectStep(c, node, id), m)
  {}

  lemma {:induction false} CollectCall(c: Cluster, node: nat, id: nat, n: nat, k: nat)
    requires node < |c.managers| && ItemOk(c, OfCall(n, k)) && ItemOk(c, OfCall(node, id))
    ensures ItemOk(CollectStep(c, node, id), OfCall(n, k))
  {}

  lemma {:induction false} CollectLease(c: Cluster, node: nat, id: nat, n: nat, k: nat)
    requires node < |c.managers| && ItemOk(c, OfLease(n, k))
    requires ItemOk(c, OfCall(node, id)) && ItemOk(c, OfTicket(Ticket(node, id)))
    ensures ItemOk(CollectStep(c, node, id), OfLease(n, k))
  {
    if id in c.managers[node].pending {
      SubsetSize(c.log[Ticket(node, id)].counted, c.log[Ticket(node, id)].votes);
    }
  }

  lemma {:induction false} AcquireKeeps(c: Cluster, node: nat, key: string, expiry: int, reached: set<nat>, i: Item)
    requires 2 <= |c.managers| && node < |c.managers| && reached <= Peers(|c.managers|, node) && ItemOk(c, i)
    requires Ticket(node, c.managers[node].lastId + 1) !in c.log
    ensures ItemOk(AcquireStep(c, node, key, expiry, Peers(|c.managers|, node), reached), i)
  {
    if i.OfCall? {
      AcquireCall(c, node, key, expiry, reached, i.node, i.id);
    } else if i.OfLease? {
      AcquireLease(c, node, key, expiry, reached, i.node, i.id);
    } else if i.OfMessage? {
      AcquireMessage(c, node, key, expiry, reached, i.message);
    }
  }

  /** With other nodes alive, opening a call settles nothing yet. */
  lemma {:induction false} OpenedPending(m: Manager, self: nat, key: string, expiry: int, peerCount: nat, sent: nat)
    requires peerCount > 0
    ensures var m', id := Opened(m, self, key, expiry, peerCount, sent), m.lastId + 1;
      && m'.held == m.held && m'.granted == m.granted && m'.lastId == id
      && m'.pending == if sent < MajorityQuorum(peerCount) then m.pending
                       else m.pending[id := Call(key, expiry, MajorityQuorum(peerCount), peerCount, [], 0)]
  {}

  lemma {:induction false} AcquireCall(c: Cluster, node: nat, key: string, expiry: int, reached: set<nat>, n: nat,
                                       id: nat)
    requires 2 <= |c.managers| && node < |c.managers| && ItemOk(c, OfCall(n, id))
    requires Ticket(node, c.managers[node].lastId + 1) !in c.log
    ensures ItemOk(AcquireStep(c, node, key, expiry, Peers(|c.managers|, node), reached), OfCall(n, id))
  {
    OpenedPending(c.managers[node], node, key, expiry, |Peers(|c.managers|, node)|, |reached|);
    var c' := AcquireStep(c, node, key, expiry, Peers(|c.managers|, node), reached);
    if n == node && id == c.managers[node].lastId + 1 {
      assert id in c'.managers[node].pending ==> CallOk(c', node, id);
    } else if n < |c.managers| && id in c'.managers[n].pending {
      assert id in c.managers[n].pending && c'.managers[n].pending[id] == c.managers[n].pending[id];
    }
  }

  lemma {:induction false} AcquireLease(c: Cluster, node: nat, key: string, expiry: int, reached: set<nat>, n: nat,
                                        id: nat)
    requires 2 <= |c.managers| && node < |c.managers| && ItemOk(c, OfLease(n, id))
    requires Ticket(node, c.managers[node].lastId + 1) !in c.log
    ensures ItemOk(AcquireStep(c, node, key, expiry, Peers(|c.managers|, node), reached), OfLease(n, id))
  {
    OpenedPending(c.managers[node], node, key, expiry, |Peers(|c.managers|, node)|, |reached|);
  }

  lemma {:induction false} AcquireMessage(c: Cluster, node: nat, key: string, expiry: int, reached: set<nat>,
                                          m: Message)
    requires 2 <= |c.managers| && node < |c.managers| && reached <= Peers(|c.managers|, node)
    requires Ticket(node, c.managers[node].lastId + 1) !in c.log && ItemOk(c, OfMessage(m))
    ensures ItemOk(AcquireStep(c, node, key, expiry, Peers(|c.managers|, node), reached), OfMessage(m))
  {}

  lemma {:induction false} AnnounceKeeps(c: Cluster, t0: Ticket, i: Item)
    requires t0 in c.log && c.log[t0].won && ItemOk(c, i)
    ensures ItemOk(AnnounceStep(c, t0), i)
  {}

  /** `m'` lost nothing of `m` but calls, leases and grants that are over. */
  ghost predicate Trimmed(m: Manager, m': Manager, now: int) {
    && m'.lastId == m.lastId
    && (forall id <- m'.pending :: id in m.pending && m'.pending[id] == m.pending[id])
    && (forall id <- m'.held :: id in m.held && m'.held[id] == m.held[id])
    && (forall k <- m.granted :: m.granted[k] > now ==> k in m'.granted && m'.granted[k] == m.granted[k])
  }

  lemma {:induction false} TrimKeeps(c: Cluster, node: nat, m: Manager, i: Item)
    requires node < |c.managers| && Trimmed(c.managers[node], m, c.now) && ItemOk(c, i)
    ensures ItemOk(With(c, node, m), i)
  {}

  lemma {:induction false} PassiveKeeps(c: Cluster, e: Event, i: Item)
    requires Enabled(c, e) && (e.Tick? || e.Lose?) && ItemOk(c, i)
    ensures ItemOk(Next(c, e), i)
  {}

  lemma {:induction false} DeliverKeeps(c: Cluster, m: Message, i: Item)
    requires Inv(c) && Enabled(c, Deliver(m)) && Proper(c, Deliver(m))
    ensures ItemOk(Next(c, Deliver(m)), i)
  {
    assert ItemOk(c, i) && ItemOk(c, OfMessage(m));
    if m.Request? {
      assert ItemOk(c, OfTicket(Ticket(m.src, m.id)));
      RequestKeeps(c, m, i);
    } else if m.Reply? {
      ReplyKeeps(c, m, i);
    } else {
      ReleaseKeeps(c, m, i);
    }
  }

  lemma {:induction false} FreshTicket(c: Cluster, node: nat)
    requires Inv(c) && node < |c.managers|
    ensures Ticket(node, c.managers[node].lastId + 1) !in c.log
  {
    assert ItemOk(c, OfTicket(Ticket(node, c.managers[node].lastId + 1)));
  }

  lemma {:induction false} CollectsKeep(c: Cluster, node: nat, id: nat, i: Item)
    requires Inv(c) && node < |c.managers|
    ensures ItemOk(CollectStep(c, node, id), i)
  {
    assert ItemOk(c, i) && ItemOk(c, OfCall(node, id)) && ItemOk(c, OfTicket(Ticket(node, id)));
    CollectKeeps(c, node, id, i);
  }

  lemma {:induction false} LocalKeeps(c: Cluster, e: Event, i: Item)
    requires ItemOk(c, i) && Enabled(c, e) && (e.Cleanup? || e.GiveUp? || e.Forget?)
    ensures ItemOk(Next(c, e), i)
  {
    match e
    case Cleanup(node) => TrimKeeps(c, node, Cleaned(c.managers[node], c.now), i);
    case GiveUp(node, id) => TrimKeeps(c, node, c.managers[node].(pending := c.managers[node].pending - {id}), i);
    case Forget(t) => TrimKeeps(c, t.holder, c.managers[t.holder].(held := c.managers[t.holder].held - {t.id}), i);
  }

  lemma {:induction false} AcquiresKeep(c: Cluster, node: nat, key: string, expiry: int, alive: set<nat>,
                                        reached: set<nat>, i: Item)
    requires Inv(c) && node < |c.managers| && alive == Peers(|c.managers|, node) && reached <= alive
    ensures ItemOk(AcquireStep(c, node, key, expiry, alive, reached), i)
  {
    assert ItemOk(c, i);
    FreshTicket(c, node);
    AcquireKeeps(c, node, key, expiry, reached, i);
  }

  lemma {:induction false} OthersKeep(c: Cluster, e: Event, i: Item)
    requires ItemOk(c, i) && Enabled(c, e) && !e.Deliver? && !e.Collect? && !e.Acquire?
    ensures ItemOk(Next(c, e), i)
  {
    if e.Announce? {
      AnnounceKeeps(c, e.ticket, i);
    } else if e.Tick? || e.Lose? {
      PassiveKeeps(c, e, i);
    } else {
      LocalKeeps(c, e, i);
    }
  }

  ghost predicate Kept(c: Cluster, e: Event)
    requires Enabled(c, e)
  {
    Inv(Next(c, e)) && |Next(c, e).managers| == |c.managers|
  }

  lemma {:induction false} DeliverStepKeeps(c: Cluster, e: Event)
    requires Inv(c) && Enabled(c, e) && Proper(c, e) && e.Deliver?
    ensures Kept(c, e)
  {
    forall i ensures ItemOk(Next(c, e), i) { DeliverKeeps(c, e.message, i); }
  }

  lemma {:induction false} CollectStepKeeps(c: Cluster, e: Event)
    requires Inv(c) && Enabled(c, e) && e.Collect?
    ensures Kept(c, e)
  {
    forall i ensures ItemOk(Next(c, e), i) { CollectsKeep(c, e.node, e.id, i); }
  }

  lemma {:induction false} AcquireInv(c: Cluster, c': Cluster, node: nat, key: string, expiry: int, alive: set<nat>,
                                      reached: set<nat>)
    requires Inv(c) && node < |c.managers| && alive == Peers(|c.managers|, node) && reached <= alive
    requires c' == AcquireStep(c, node, key, expiry, alive, reached)
    ensures forall i :: ItemOk(c', i)
  {
    forall i ensures ItemOk(c', i) {
      AcquiresKeep(c, node, key, expiry, alive, reached, i);
    }
  }

  lemma {:induction false} AcquireStepKeeps(c: Cluster, e: Event)
    requires Inv(c) && Enabled(c, e) && Proper(c, e) && e.Acquire?
    ensures Kept(c, e)
  {
    AcquireInv(c, Next(c, e), e.node, e.key, c.now + e.duration, e.alive, e.reached);
  }

  lemma {:induction false} OtherStepKeeps(c: Cluster, e: Event)
    requires Inv(c) && Enabled(c, e) && !e.Deliver? && !e.Collect? && !e.Acquire?
    ensures Kept(c, e)
  {
    forall i ensures ItemOk(Next(c, e), i) {
      assert ItemOk(c, i);
      OthersKeep(c, e, i);
    }
  }

  lemma {:induction false} StepKeeps(c: Cluster, e: Event)
    requires Inv(c) && Enabled(c, e) && Proper(c, e)
    ensures Kept(c, e)
  {
    if e.Deliver? {
      DeliverStepKeeps(c, e);
    } else if e.Collect? {
      CollectStepKeeps(c, e);
    } else if e.Acquire? {
      AcquireStepKeeps(c, e);
    } else {
      OtherStepKeeps(c, e);
    }
  }

  // ---- runs ----

  /** `states` and `events` are a run of a cluster of `n` nodes. */
  ghost predicate IsRun(n: nat, states: seq<Cluster>, events: seq<Event>) {
    && |states| == |events| + 1 && states[0] == Boot(n, states[0].now)
    && forall i :: 0 <= i < |events| ==> Enabled(states[i], events[i]) && states[i + 1] == Next(states[i], events[i])
  }

  ghost predicate AllProper(states: seq<Cluster>, events: seq<Event>)
    requires |states| == |events| + 1
  {
    forall i :: 0 <= i < |events| ==> Proper(states[i], events[i])
  }

  lemma {:induction false} RunKeeps(n: nat, states: seq<Cluster>, events: seq<Event>, i: nat)
    requires n >= 2 && IsRun(n, states, events) && AllProper(states, events) && i < |states|
    ensures Inv(states[i]) && |states[i].managers| == n
  {
    AllIdle(n);
    if i > 0 {
      RunKeeps(n, states, events, i - 1);
      StepKeeps(states[i - 1], events[i - 1]);
    }
  }

  /** In a cluster of odd size of at least three, no run under the conditions of
      `Proper` ever has two unexpired leases for one key. */
  lemma {:induction false} NoTwoHolders(n: nat, states: seq<Cluster>, events: seq<Event>)
    requires n >= 3 && n % 2 == 1 && IsRun(n, states, events) && AllProper(states, events)
    ensures forall c <- states :: Safe(c)
  {
    forall i | 0 <= i < |states| ensures Safe(states[i]) {
      RunKeeps(n, states, events, i);
      InvSafe(states[i]);
    }
  }
}
