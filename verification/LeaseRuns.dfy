module LeaseRuns {

  // Runs of the lease protocol that end with two holders: one for every cluster
  // size that is even or one, and two of size three that each break one condition
  // of the safety theorem. With `Lease.NoTwoHolders` they make it exact. One more
  // shows why a lease counts as given up once its release is announced.

  import opened Lease

  /** `c` ends some run of `n` nodes; `sees` and `own` say which conditions the
      run obeys throughout. */
  ghost predicate Reachable(n: nat, c: Cluster, sees: bool, own: bool) {
    exists states, events :: EndsIn(n, states, events, c, sees, own)
  }

  ghost predicate EndsIn(n: nat, states: seq<Cluster>, events: seq<Event>, c: Cluster, sees: bool, own: bool) {
    && IsRun(n, states, events) && states[|events|] == c
    && forall i :: 0 <= i < |events| ==> Allowed(states[i], events[i], sees, own)
  }

  ghost predicate Allowed(c: Cluster, e: Event, sees: bool, own: bool) {
    (sees ==> SeesAll(c, e)) && (own ==> OwnRelease(c, e))
  }

  lemma {:induction false} BootReachable(n: nat, sees: bool, own: bool)
    ensures Reachable(n, Boot(n, 0), sees, own)
  {
    assert EndsIn(n, [Boot(n, 0)], [], Boot(n, 0), sees, own);
  }

  lemma {:induction false} NextReachable(n: nat, c: Cluster, e: Event, sees: bool, own: bool)
    requires Reachable(n, c, sees, own) && Enabled(c, e) && Allowed(c, e, sees, own)
    ensures Reachable(n, Next(c, e), sees, own)
  {
    var states, events :| EndsIn(n, states, events, c, sees, own);
    Longer(n, states, events, c, e, Next(c, e), sees, own);
  }

  lemma {:induction false} Longer(n: nat, states: seq<Cluster>, events: seq<Event>, c: Cluster, e: Event, c': Cluster,
                                  sees: bool, own: bool)
    requires EndsIn(n, states, events, c, sees, own) && Enabled(c, e) && c' == Next(c, e) && Allowed(c, e, sees, own)
    ensures EndsIn(n, states + [c'], events + [e], c', sees, own)
  {
    var s, es := states + [c'], events + [e];
    forall i | 0 <= i < |es|
      ensures Enabled(s[i], es[i]) && s[i + 1] == Next(s[i], es[i]) && Allowed(s[i], es[i], sees, own)
    {
      assert s[i] == states[i];
      if i < |events| {
        assert es[i] == events[i] && s[i + 1] == states[i + 1];
      }
    }
  }

  /** The call of ticket (h, id) has `g` of its grants, or has become a lease. */
  ghost predicate Progress(c: Cluster, h: nat, id: nat, call: Call, g: nat) {
    && h < |c.managers|
    && if g < call.quorum
       then id in c.managers[h].pending && c.managers[h].pending[id] == call.(grants := g, inbox := [])
       else id in c.managers[h].held && c.managers[h].held[id] == Lease(id, h, call.key, call.expiry, call.quorum)
  }

  ghost predicate Noted(c: Cluster, h: nat, id: nat, key: string) {
    Ticket(h, id) in c.log && c.log[Ticket(h, id)].key == key && !c.log[Ticket(h, id)].released
  }

  /** Nothing but ticket (h, id) and the grants changes between `c` and `c'`. */
  ghost predicate Apart(c: Cluster, c': Cluster, h: nat, id: nat) {
    && c'.now == c.now && |c'.managers| == |c.managers|
    && (forall u, i :: 0 <= u < |c.managers| && Ticket(u, i) != Ticket(h, id) ==>
        SameCall(c.managers[u], c'.managers[u], i))
    && (forall t <- c.log :: t != Ticket(h, id) ==>
        t in c'.log && c'.log[t].released == c.log[t].released && c'.log[t].key == c.log[t].key)
  }

  ghost predicate SameCall(m: Manager, m': Manager, i: nat) {
    && (i in m.pending <==> i in m'.pending) && (i in m.pending ==> m'.pending[i] == m.pending[i])
    && (i in m.held <==> i in m'.held) && (i in m.held ==> m'.held[i] == m.held[i])
  }

  ghost predicate Granted(c: Cluster, c': Cluster, v: nat, key: string, expiry: int) {
    && |c'.managers| == |c.managers|
    && forall u :: 0 <= u < |c.managers| ==>
         c'.managers[u].granted == if u == v then c.managers[u].granted[key := expiry] else c.managers[u].granted
  }

  ghost predicate SameGrants(c: Cluster, c': Cluster) {
    |c'.managers| == |c.managers| &&
        forall u :: 0 <= u < |c.managers| ==> c'.managers[u].granted == c.managers[u].granted
  }

  lemma {:induction false} AfterRequest(c: Cluster, q: Message, h: nat, id: nat, call: Call, g: nat)
    requires q.Request? && q.dst < |c.managers| && !Engaged(c.managers[q.dst], c.now, q.key)
    requires Progress(c, h, id, call, g) && Noted(c, h, id, call.key) && g < call.quorum
    ensures var c' := RequestStep(c, q);
      Apart(c, c', h, id) && Granted(c, c', q.dst, q.key, q.expiry) && Progress(c', h, id, call, g) &&
          Noted(c', h, id, call.key)
      && c'.network == c.network - {q} + {Reply(q.dst, q.src, q.id, q.key, q.expiry)}
  {}

  lemma {:induction false} AfterReply(c: Cluster, r: Message, call: Call, g: nat)
    requires r.Reply? && r.dst < |c.managers| && r.expiry != 0
    requires Progress(c, r.dst, r.id, call, g) && Noted(c, r.dst, r.id, call.key) && g < call.quorum &&
             call.capacity > 0
    ensures var c' := ReplyStep(c, r);
      Apart(c, c', r.dst, r.id) && Noted(c', r.dst, r.id, call.key) && SameGrants(c, c') &&
          c'.network == c.network - {r}
      && r.id in c'.managers[r.dst].pending && c'.managers[r.dst].pending[r.id] == call.(grants := g, inbox := [true])
  {}

  lemma {:induction false} AfterCollect(c: Cluster, h: nat, id: nat, call: Call, g: nat)
    requires h < |c.managers| && id in c.managers[h].pending &&
             c.managers[h].pending[id] == call.(grants := g, inbox := [true])
    requires g < call.quorum && Noted(c, h, id, call.key)
    ensures var c' := CollectStep(c, h, id);
      && Apart(c, c', h, id) && Noted(c', h, id, call.key) && SameGrants(c, c') && c'.network == c.network
      && Progress(c', h, id, call, g + 1) && (g + 1 == call.quorum ==> c'.log[Ticket(h, id)].won)
  {
    assert [true][1..] == [];
  }

  lemma {:induction false} ApartTwice(c: Cluster, c1: Cluster, c2: Cluster, h: nat, id: nat)
    requires Apart(c, c1, h, id) && Apart(c1, c2, h, id)
    ensures Apart(c, c2, h, id)
  {}

  ghost predicate StillSent(c: Cluster, c': Cluster, q: Message) {
    forall m <- c.network :: !m.Reply? && m != q ==> m in c'.network
  }

  /** One node grants a request and its answer arrives. */
  lemma {:induction false} Answer(n: nat, c: Cluster, h: nat, v: nat, id: nat, call: Call, g: nat, sees: bool,
                                  own: bool)
    returns (c': Cluster)
    requires Reachable(n, c, sees, own) && v < |c.managers| && g < call.quorum && call.capacity > 0 && call.expiry != 0
    requires Progress(c, h, id, call, g) && Noted(c, h, id, call.key)
    requires Request(h, v, id, call.key, call.expiry) in c.network && !Engaged(c.managers[v], c.now, call.key)
    ensures Reachable(n, c', sees, own) && Apart(c, c', h, id) && Granted(c, c', v, call.key, call.expiry)
    ensures StillSent(c, c', Request(h, v, id, call.key, call.expiry)) && Noted(c', h, id, call.key) &&
            h < |c'.managers|
    ensures id in c'.managers[h].pending && c'.managers[h].pending[id] == call.(grants := g, inbox := [true])
  {
    var q, r := Request(h, v, id, call.key, call.expiry), Reply(v, h, id, call.key, call.expiry);
    AfterRequest(c, q, h, id, call, g);
    NextReachable(n, c, Deliver(q), sees, own);
    var c1 := RequestStep(c, q);
    AfterReply(c1, r, call, g);
    NextReachable(n, c1, Deliver(r), sees, own);
    c' := ReplyStep(c1, r);
    ApartTwice(c, c1, c', h, id);
  }

  /** One node grants a request, its answer arrives, and the call counts it. */
  lemma {:induction false} Vote(n: nat, c: Cluster, h: nat, v: nat, id: nat, call: Call, g: nat, sees: bool, own: bool)
    returns (c': Cluster)
    requires Reachable(n, c, sees, own) && v < |c.managers| && g < call.quorum && call.capacity > 0 && call.expiry != 0
    requires Progress(c, h, id, call, g) && Noted(c, h, id, call.key)
    requires Request(h, v, id, call.key, call.expiry) in c.network && !Engaged(c.managers[v], c.now, call.key)
    ensures Reachable(n, c', sees, own) && Apart(c, c', h, id) && Granted(c, c', v, call.key, call.expiry)
    ensures StillSent(c, c', Request(h, v, id, call.key, call.expiry)) && Progress(c', h, id, call, g + 1) &&
            Noted(c', h, id, call.key)
    ensures g + 1 == call.quorum ==> c'.log[Ticket(h, id)].won
  {
    var c1 := Answer(n, c, h, v, id, call, g, sees, own);
    AfterCollect(c1, h, id, call, g);
    NextReachable(n, c1, Event.Collect(h, id), sees, own);
    c' := CollectStep(c1, h, id);
    ApartTwice(c, c1, c', h, id);
  }

  /** A call of Acquire that contacts its quorum waits with no grants yet. */
  lemma {:induction false} Ask(n: nat, c: Cluster, h: nat, alive: set<nat>, sees: bool, own: bool)
    returns (c': Cluster, id: nat, call: Call)
    requires Reachable(n, c, sees, own) && h < |c.managers| && alive <= Peers(|c.managers|, h) && alive != {}
    requires sees ==> alive == Peers(|c.managers|, h)
    ensures call == Call("k", c.now + 10, MajorityQuorum(|alive|), |alive|, [], 0)
    ensures Reachable(n, c', sees, own) && SameGrants(c, c') && Apart(c, c', h, id)
    ensures Progress(c', h, id, call, 0) && Noted(c', h, id, "k") && c.network <= c'.network
    ensures forall v <- alive :: Request(h, v, id, "k", call.expiry) in c'.network
  {
    id := c.managers[h].lastId + 1;
    call := Call("k", c.now + 10, MajorityQuorum(|alive|), |alive|, [], 0);
    AfterAcquire(c, h, id, call, alive);
    NextReachable(n, c, Acquire(h, "k", 10, alive, alive), sees, own);
    c' := AcquireStep(c, h, "k", c.now + 10, alive, alive);
  }

  lemma {:induction false} AfterAcquire(c: Cluster, h: nat, id: nat, call: Call, alive: set<nat>)
    requires h < |c.managers| && alive != {} && id == c.managers[h].lastId + 1
    requires call == Call("k", c.now + 10, MajorityQuorum(|alive|), |alive|, [], 0)
    ensures var c' := AcquireStep(c, h, "k", c.now + 10, alive, alive);
      && SameGrants(c, c') && Apart(c, c', h, id) && Progress(c', h, id, call, 0) && Noted(c', h, id, "k") &&
         c.network <= c'.network
      && forall v <- alive :: Request(h, v, id, "k", call.expiry) in c'.network
  {}

  // ---- an even size ----

  /** Odd nodes vote for the call of node 0, even ones for that of node 1. */
  function Candidate(u: nat): nat { 1 - u % 2 }

  /** The first `v` nodes have voted. */
  ghost predicate Midway(n: nat, c: Cluster, v: nat, ids: (nat, nat), call: Call) {
    && |c.managers| == n && v <= n && c.now == 0
    && Progress(c, 0, ids.0, call, v / 2) && Noted(c, 0, ids.0, call.key)
    && Progress(c, 1, ids.1, call, (v + 1) / 2) && Noted(c, 1, ids.1, call.key)
    && forall u :: v <= u < n ==> Unvoted(c, u, ids, call)
  }

  ghost predicate Unvoted(c: Cluster, u: nat, ids: (nat, nat), call: Call) {
    && u < |c.managers| && call.key !in c.managers[u].granted
    && Request(Candidate(u), u, if u % 2 == 1 then ids.0 else ids.1, call.key, call.expiry) in c.network
  }

  lemma {:induction false} VoteHalf(n: nat, c: Cluster, v: nat, ids: (nat, nat), call: Call) returns (c': Cluster)
    requires n % 2 == 0 && v < n && call == Call("k", 10, n / 2, n - 1, [], 0)
    requires Reachable(n, c, true, true) && Midway(n, c, v, ids, call)
    ensures Reachable(n, c', true, true) && Midway(n, c', v + 1, ids, call)
  {
    assert Unvoted(c, v, ids, call);
    var h, id := Candidate(v), if v % 2 == 1 then ids.0 else ids.1;
    c' := Vote(n, c, h, v, id, call, v / 2, true, true);
    forall u | v + 1 <= u < n ensures Unvoted(c', u, ids, call) {
      assert Unvoted(c, u, ids, call);
    }
    assert SameCall(c.managers[1 - h], c'.managers[1 - h], if v % 2 == 1 then ids.1 else ids.0);
  }

  lemma {:induction false} VoteAll(n: nat, c: Cluster, v: nat, ids: (nat, nat), call: Call) returns (c': Cluster)
    requires n % 2 == 0 && n >= 2 && v <= n && call == Call("k", 10, n / 2, n - 1, [], 0)
    requires Reachable(n, c, true, true) && Midway(n, c, v, ids, call)
    ensures Reachable(n, c', true, true) && !Safe(c')
    decreases n - v
  {
    if v < n {
      c' := VoteHalf(n, c, v, ids, call);
      c' := VoteAll(n, c', v + 1, ids, call);
    } else {
      c' := c;
      assert Holds(c, Ticket(0, ids.0), "k") && Holds(c, Ticket(1, ids.1), "k");
    }
  }

  /** Both calls have asked everybody, nobody has voted. */
  lemma {:induction false} BothAsk(n: nat, c: Cluster, c': Cluster, ids: (nat, nat), call: Call)
    requires n % 2 == 0 && n >= 2 && call == Call("k", 10, n / 2, n - 1, [], 0)
    requires |c.managers| == n && c.now == 0 && forall u :: 0 <= u < n ==> c.managers[u].granted == map[]
    requires Progress(c, 0, ids.0, call, 0) && Noted(c, 0, ids.0, call.key) && SameGrants(c, c') &&
             Apart(c, c', 1, ids.1)
    requires Progress(c', 1, ids.1, call, 0) && Noted(c', 1, ids.1, call.key) && c.network <= c'.network
    requires forall v <- Peers(n, 0) :: Request(0, v, ids.0, "k", 10) in c.network
    requires forall v <- Peers(n, 1) :: Request(1, v, ids.1, "k", 10) in c'.network
    ensures Midway(n, c', 0, ids, call)
  {
    assert SameCall(c.managers[0], c'.managers[0], ids.0);
    forall u | 0 <= u < n ensures Unvoted(c', u, ids, call) {
      assert u in Peers(n, Candidate(u));
    }
  }

  lemma {:induction false} TwoAsk(n: nat, call: Call) returns (c: Cluster, ids: (nat, nat))
    requires n % 2 == 0 && n >= 2 && call == Call("k", 10, n / 2, n - 1, [], 0)
    ensures Reachable(n, c, true, true) && Midway(n, c, 0, ids, call)
  {
    BootReachable(n, true, true);
    AllIdle(n);
    var c0 := Boot(n, 0);
    var c1, id0, same0 := Ask(n, c0, 0, Peers(n, 0), true, true);
    var c2, id1, same1 := Ask(n, c1, 1, Peers(n, 1), true, true);
    assert same0 == call && same1 == call;
    c, ids := c2, (id0, id1);
    BothAsk(n, c1, c2, ids, call);
  }

  lemma {:induction false} EvenSplits(n: nat) returns (c: Cluster)
    requires n % 2 == 0 && n >= 2
    ensures Reachable(n, c, true, true) && !Safe(c)
  {
    var call := Call("k", 10, n / 2, n - 1, [], 0);
    var c0, ids := TwoAsk(n, call);
    c := VoteAll(n, c0, 0, ids, call);
  }

  // ---- a single node ----

  lemma {:induction false} AloneTwice() returns (c: Cluster)
    ensures Reachable(1, c, true, true) && !Safe(c)
  {
    BootReachable(1, true, true);
    AllIdle(1);
    var e := Acquire(0, "k", 10, {}, {});
    var c0 := Boot(1, 0);
    assert Peers(1, 0) == {};
    NextReachable(1, c0, e, true, true);
    var c1 := Next(c0, e);
    assert Holds(c1, Ticket(0, 1), "k");
    NextReachable(1, c1, e, true, true);
    c := Next(c1, e);
    assert Holds(c, Ticket(0, 1), "k") && Holds(c, Ticket(0, 2), "k");
  }

  /** Which cluster sizes are safe: with every node seen alive and only own
      releases handled, two holders of a key are unreachable exactly when the
      size is odd and at least three. */
  lemma {:induction false} SafeSizes(n: nat)
    requires n >= 1
    ensures (forall c :: Reachable(n, c, true, true) ==> Safe(c)) <==> n % 2 == 1 && n >= 3
  {
    if n % 2 == 1 && n >= 3 {
      forall c | Reachable(n, c, true, true) ensures Safe(c) {
        var states, events :| EndsIn(n, states, events, c, true, true);
        NoTwoHolders(n, states, events);
      }
    } else if n == 1 {
      var c := AloneTwice();
    } else {
      var c := EvenSplits(n);
    }
  }

  // ---- three nodes, one condition broken ----

  /** Node `h` of three has won a lease of "k" with both votes. */
  ghost predicate Wins(c: Cluster, c': Cluster, h: nat, id: nat) {
    && Apart(c, c', h, id) && Noted(c', h, id, "k") && c'.log[Ticket(h, id)].won && |c.managers| == 3 && h < 3
    && Holds(c', Ticket(h, id), "k") && c'.managers[h].held[id].expiry == c.now + 10
    && (forall u :: 0 <= u < 3 ==>
          c'.managers[u].granted == if u == h then c.managers[u].granted else c.managers[u].granted["k" := c.now + 10])
    && (forall m <- c.network :: m.Release? ==> m in c'.network)
  }

  lemma {:induction false} BothVote(c: Cluster, h: nat, a: nat, b: nat, id: nat, call: Call, own: bool)
    returns (c': Cluster)
    requires Reachable(3, c, true, own) && |c.managers| == 3 && c.now >= 0 && h < 3 && a < 3 && b < 3 && a != b &&
             a != h && b != h
    requires call == Call("k", c.now + 10, 2, 2, [], 0) && Progress(c, h, id, call, 0) && Noted(c, h, id, "k")
    requires Request(h, a, id, "k", call.expiry) in c.network && !Engaged(c.managers[a], c.now, "k")
    requires Request(h, b, id, "k", call.expiry) in c.network && !Engaged(c.managers[b], c.now, "k")
    ensures Reachable(3, c', true, own) && Wins(c, c', h, id)
  {
    var c1 := Vote(3, c, h, a, id, call, 0, true, own);
    c' := Vote(3, c1, h, b, id, call, 1, true, own);
    TwoVotes(c, c1, c', h, a, b, id, call);
  }

  lemma {:induction false} TwoVotes(c: Cluster, c1: Cluster, c': Cluster, h: nat, a: nat, b: nat, id: nat, call: Call)
    requires |c.managers| == 3 && h < 3 && a < 3 && b < 3 && a != b && a != h && b != h &&
             call == Call("k", c.now + 10, 2, 2, [], 0)
    requires Apart(c, c1, h, id) && Granted(c, c1, a, "k", call.expiry) &&
             StillSent(c, c1, Request(h, a, id, "k", call.expiry))
    requires Apart(c1, c', h, id) && Granted(c1, c', b, "k", call.expiry) &&
             StillSent(c1, c', Request(h, b, id, "k", call.expiry))
    requires Progress(c', h, id, call, 2) && Noted(c', h, id, "k") && c'.log[Ticket(h, id)].won
    ensures Wins(c, c', h, id)
  {
    ApartTwice(c, c1, c', h, id);
  }

  lemma {:induction false} WinBoth(c: Cluster, h: nat, a: nat, b: nat, own: bool) returns (c': Cluster, id: nat)
    requires Reachable(3, c, true, own) && |c.managers| == 3 && c.now >= 0 && Peers(3, h) == {a, b} && h < 3 && a != b
    requires !Engaged(c.managers[a], c.now, "k") && !Engaged(c.managers[b], c.now, "k")
    ensures Reachable(3, c', true, own) && Wins(c, c', h, id)
  {
    var c1, i, call := Ask(3, c, h, Peers(3, h), true, own);
    id := i;
    assert a in Peers(3, h) && b in Peers(3, h);
    c' := BothVote(c1, h, a, b, id, call, own);
    WinsAfter(c, c1, c', h, id);
  }

  lemma {:induction false} WinsAfter(c: Cluster, c1: Cluster, c': Cluster, h: nat, id: nat)
    requires SameGrants(c, c1) && Apart(c, c1, h, id) && c.network <= c1.network && Wins(c1, c', h, id)
    ensures Wins(c, c', h, id)
  {
    ApartTwice(c, c1, c', h, id);
  }

  /** A release of an expired lease that arrives late deletes the grant of
      another holder, and then a third lease is granted beside it. */
  lemma {:induction false} StrayReleaseSplits() returns (c: Cluster)
    ensures Reachable(3, c, true, false) && !Safe(c)
  {
    BootReachable(3, true, false);
    AllIdle(3);
    assert Peers(3, 0) == {1, 2} && Peers(3, 1) == {0, 2};
    var c1, i := WinBoth(Boot(3, 0), 0, 1, 2, false);
    c := LateRelease(c1, i);
  }

  lemma {:induction false} LateRelease(c1: Cluster, i: nat) returns (c: Cluster)
    requires Reachable(3, c1, true, false) && |c1.managers| == 3 && c1.now == 0 && Noted(c1, 0, i, "k") &&
             c1.log[Ticket(0, i)].won
    requires forall u :: 0 <= u < 3 ==> !Engaged(c1.managers[u], 10, "k")
    ensures Reachable(3, c, true, false) && !Safe(c)
  {
    NextReachable(3, c1, Announce(Ticket(0, i)), true, false);
    var c2 := AnnounceStep(c1, Ticket(0, i));
    assert 2 in Peers(3, 0) && Release(0, 2, i, "k") in c2.network;
    NextReachable(3, c2, Tick(10), true, false);
    c := StrayArrives(c2.(now := c2.now + 10), Release(0, 2, i, "k"));
  }

  lemma {:induction false} StrayArrives(c3: Cluster, late: Message) returns (c: Cluster)
    requires Reachable(3, c3, true, false) && |c3.managers| == 3 && c3.now == 10 && late in c3.network
    requires late.Release? && late.dst == 2 && late.key == "k"
    requires forall u :: 0 <= u < 3 ==> !Engaged(c3.managers[u], 10, "k")
    ensures Reachable(3, c, true, false) && !Safe(c)
  {
    assert Peers(3, 0) == {1, 2} && Peers(3, 1) == {0, 2};
    var c4, j := WinBoth(c3, 1, 0, 2, false);
    NextReachable(3, c4, Deliver(late), true, false);
    var c5 := ReleaseStep(c4, late);
    var c6, k := WinBoth(c5, 0, 1, 2, false);
    assert SameCall(c5.managers[1], c6.managers[1], j);
    assert Holds(c6, Ticket(1, j), "k") && Holds(c6, Ticket(0, k), "k");
    c := c6;
  }

  /** The grants of a lease that was not released are recorded for it. */
  lemma {:induction false} VotedFor(c: Cluster, i: nat)
    requires Reachable(3, c, true, true) && Holds(c, Ticket(0, i), "k")
    ensures (2, "k") in c.owner && c.owner[(2, "k")] == Ticket(0, i)
  {
    var states, events :| EndsIn(3, states, events, c, true, true);
    RunKeeps(3, states, events, |events|);
    var t := Ticket(0, i);
    assert ItemOk(c, OfLease(0, i)) && ItemOk(c, OfTicket(t)) && ItemOk(c, OfVote(t, 2));
    var votes := c.log[t].votes;
    assert Peers(3, 0) == {1, 2};
    if 2 !in votes { SubsetSize(votes, {1}); }
  }

  /** Between the announcement of a release and its end at the holder, another node
      can win: in that moment both have the lease in their maps. */
  lemma {:induction false} AnnouncedStillKept() returns (c: Cluster, t: Ticket, u: Ticket)
    ensures Reachable(3, c, true, true) && t != u && Keeps(c, t, "k") && Keeps(c, u, "k")
  {
    BootReachable(3, true, true);
    AllIdle(3);
    assert Peers(3, 0) == {1, 2} && Peers(3, 1) == {0, 2};
    var c1, i := WinBoth(Boot(3, 0), 0, 1, 2, true);
    VotedFor(c1, i);
    NextReachable(3, c1, Announce(Ticket(0, i)), true, true);
    var c2, r := AnnounceStep(c1, Ticket(0, i)), Release(0, 2, i, "k");
    assert 2 in Peers(3, 0) && r in c2.network;
    NextReachable(3, c2, Deliver(r), true, true);
    var c3 := ReleaseStep(c2, r);
    var c4, j := WinBoth(c3, 1, 0, 2, true);
    assert SameCall(c3.managers[0], c4.managers[0], i);
    c, t, u := c4, Ticket(0, i), Ticket(1, j);
  }

  lemma {:induction false} OneVote(c: Cluster, h: nat, v: nat, id: nat, call: Call) returns (c': Cluster)
    requires Reachable(3, c, false, true) && |c.managers| == 3 && c.now == 0 && v < 3 && !Engaged(c.managers[v], 0, "k")
    requires call == Call("k", 10, 1, 1, [], 0) && Progress(c, h, id, call, 0) && Noted(c, h, id, "k")
    requires Request(h, v, id, "k", 10) in c.network
    ensures Reachable(3, c', false, true) && Apart(c, c', h, id) && Granted(c, c', v, "k", 10)
    ensures Holds(c', Ticket(h, id), "k") && Noted(c', h, id, "k")
  {
    c' := Vote(3, c, h, v, id, call, 0, false, true);
  }

  lemma {:induction false} WinOne(c: Cluster, h: nat, v: nat) returns (c': Cluster, id: nat)
    requires Reachable(3, c, false, true) && |c.managers| == 3 && c.now == 0 && h < 3 && v in Peers(3, h)
    requires !Engaged(c.managers[v], 0, "k")
    ensures Reachable(3, c', false, true) && Apart(c, c', h, id) && Granted(c, c', v, "k", 10)
    ensures Holds(c', Ticket(h, id), "k") && Noted(c', h, id, "k")
  {
    var alive := {v};
    assert alive <= Peers(3, h) && v in alive && |alive| == 1;
    var c1, i, call := Ask(3, c, h, alive, false, true);
    id := i;
    c' := OneVote(c1, h, v, id, call);
    ApartTwice(c, c1, c', h, id);
  }

  /** Two nodes that each see only one other alive both win with that one vote. */
  lemma {:induction false} PartialViewSplits() returns (c: Cluster)
    ensures Reachable(3, c, false, true) && !Safe(c)
  {
    BootReachable(3, false, true);
    AllIdle(3);
    var c1, i := WinOne(Boot(3, 0), 0, 1);
    var c2, j := WinOne(c1, 1, 2);
    c := c2;
    assert SameCall(c1.managers[0], c.managers[0], i);
    assert Holds(c, Ticket(0, i), "k") && Holds(c, Ticket(1, j), "k");
  }
}
