/**
 The token bucket of src/server/bandwidth.go over real numbers, and the chunked
 writer that spends its budget. The clock is a parameter of every step.
 */
module Bandwidth {
  import opened Bytes

  const CHUNK_SIZE := 0x1_0000

  /** `rate` bytes per second, at most `burst` at once. */
  datatype Bucket = Bucket(rate: real, burst: real, tokens: real, last: real)

  ghost predicate Valid(b: Bucket) {
    0.0 <= b.tokens <= b.burst && 0.0 <= b.rate
  }

  function Min(a: real, b: real): real { if a > b then b else a }

  function Refilled(b: Bucket, now: real): Bucket {
    b.(tokens := Min(b.tokens + (now - b.last) * b.rate, b.burst), last := now)
  }

  /** The budget for `n` bytes is there once refilled. */
  predicate Pays(b: Bucket, now: real, n: nat) {
    Refilled(b, now).tokens >= n as real
  }

  /** One turn of waitN: refill, and take `n` bytes if they are there. */
  function Turn(b: Bucket, now: real, n: nat): Bucket {
    var r := Refilled(b, now);
    if Pays(b, now, n) then r.(tokens := r.tokens - n as real) else r
  }

  class BandwidthLimiter {
    const rate: real
    const burst: real
    var tokens: real
    var last: real

    constructor (mbps: real, now: real)
      ensures rate == burst == tokens == mbps * 1_000_000.0 / 8.0 && last == now
      ensures mbps >= 0.0 ==> Valid(State())
    {
      var r := mbps * 1_000_000.0 / 8.0;
      rate, burst, tokens, last := r, r, r, now;
    }

    function State(): Bucket
      reads this
    {
      Bucket(rate, burst, tokens, last)
    }

    method Refill(now: real)
      modifies this
      ensures State() == Refilled(old(State()), now)
      ensures var earned := old(tokens) + (now - old(last)) * rate;
              tokens == (if earned > burst then burst else earned) && last == now
    {
      tokens := tokens + (now - last) * rate;
      if tokens > burst {
        tokens := burst;
      }
      last := now;
    }

    method TakeTurn(now: real, n: nat) returns (paid: bool)
      modifies this
      ensures State() == Turn(old(State()), now, n) && paid == Pays(old(State()), now, n)
      ensures paid <==> Refilled(old(State()), now).tokens >= n as real
      ensures tokens == Refilled(old(State()), now).tokens - (if paid then n as real else 0.0) && last == now
    {
      Refill(now);
      paid := tokens >= n as real;
      if paid {
        tokens := tokens - n as real;
      }
    }

    /** The loop of waitN: it wakes at the given times until the budget is there;
        running out of times is the end of the context. */
    method WaitN(n: nat, wakes: seq<real>) returns (granted: bool, turns: nat)
      modifies this
      ensures turns <= |wakes| && State() == After(old(State()), wakes, n, turns)
      ensures if granted then turns > 0 && PaysAt(old(State()), wakes, n, turns - 1) else turns == |wakes|
      ensures forall i :: 0 <= i < turns && (granted ==> i < turns - 1) ==> !PaysAt(old(State()), wakes, n, i)
    {
      ghost var before := State();
      turns := 0;
      while turns < |wakes|
        invariant turns <= |wakes| && State() == After(before, wakes, n, turns)
        invariant forall i :: 0 <= i < turns ==> !PaysAt(before, wakes, n, i)
      {
        var paid := TakeTurn(wakes[turns], n);
        turns := turns + 1;
        if paid {
          return true, turns;
        }
      }
      granted := false;
    }
  }

  /** The bucket after the first `k` turns for the same `n`. */
  function After(b: Bucket, times: seq<real>, n: nat, k: nat): Bucket
    requires k <= |times|
  {
    if k == 0 then b else Turn(After(b, times, n, k - 1), times[k - 1], n)
  }

  /** Turn `i` finds the budget. */
  predicate PaysAt(b: Bucket, times: seq<real>, n: nat, i: nat)
    requires i < |times|
  {
    Pays(After(b, times, n, i), times[i], n)
  }

  lemma {:induction false} WaitArithmetic(need: real, tokens: real, wait: real, rate: real)
    requires rate > 0.0 && tokens < need
    ensures tokens + wait * rate >= need <==> wait >= (need - tokens) / rate
  {
    var d := (need - tokens) / rate;
    assert d * rate == need - tokens;
    if wait >= d {
      Scale(d, wait, rate);
    } else {
      ScaleStrict(wait, d, rate);
    }
  }

  lemma {:induction false} Scale(a: real, c: real, r: real)
    requires a <= c && r >= 0.0
    ensures a * r <= c * r
  {}

  lemma {:induction false} ScaleStrict(a: real, c: real, r: real)
    requires a < c && r > 0.0
    ensures a * r < c * r
  {}

  /** Waiting exactly until the deficit is earned is enough, and less is not. */
  lemma {:induction false} WaitIsExact(b: Bucket, later: real, n: nat)
    requires b.rate > 0.0 && b.tokens < n as real <= b.burst
    ensures Pays(b, later, n) <==> later - b.last >= (n as real - b.tokens) / b.rate
  {
    var need, wait := n as real, later - b.last;
    WaitArithmetic(need, b.tokens, wait, b.rate);
    assert Refilled(b, later).tokens == Min(b.tokens + wait * b.rate, b.burst);
  }

  // ---- the rate bound ----

  /** One attempt to take bytes, with the clock in bytes earned so far. */
  datatype Take = Take(credit: real, n: real)

  datatype Account = Account(tokens: real, credit: real)

  function Full(a: Account, burst: real, t: Take): real {
    Min(a.tokens + (t.credit - a.credit), burst)
  }

  function Paid(a: Account, burst: real, t: Take): real {
    if Full(a, burst, t) >= t.n then t.n else 0.0
  }

  /** The account after the first `k` attempts. */
  function Balance(a: Account, burst: real, s: seq<Take>, k: nat): Account
    requires k <= |s|
  {
    if k == 0 then a
    else
      var b, t := Balance(a, burst, s, k - 1), s[k - 1];
      Account(Full(b, burst, t) - Paid(b, burst, t), t.credit)
  }

  /** What attempts `i` up to `j` got, the latter not included. */
  function Spent(a: Account, burst: real, s: seq<Take>, i: nat, j: nat): real
    requires i <= j <= |s|
  {
    if i == j then 0.0 else Spent(a, burst, s, i, j - 1) + Paid(Balance(a, burst, s, j - 1), burst, s[j - 1])
  }

  ghost predicate Rising(a: Account, s: seq<Take>) {
    && (s != [] ==> a.credit <= s[0].credit)
    && (forall i, j :: 0 <= i < j < |s| ==> s[i].credit <= s[j].credit)
    && (forall i :: 0 <= i < |s| ==> s[i].n >= 0.0)
  }

  lemma {:induction false} BalanceFacts(a: Account, burst: real, s: seq<Take>, k: nat)
    requires 0.0 <= a.tokens <= burst && Rising(a, s) && k <= |s|
    ensures 0.0 <= Balance(a, burst, s, k).tokens <= burst
    ensures Balance(a, burst, s, k).credit == if k == 0 then a.credit else s[k - 1].credit
  {
    if k > 0 {
      BalanceFacts(a, burst, s, k - 1);
    }
  }

  /** What is granted from attempt `i` on is paid for by the burst and the tokens
      earned since. */
  lemma {:induction false} Budget(a: Account, burst: real, s: seq<Take>, i: nat, j: nat)
    requires 0.0 <= a.tokens <= burst && Rising(a, s) && i < j <= |s|
    ensures Spent(a, burst, s, i, j) + Balance(a, burst, s, j).tokens <= burst + s[j - 1].credit - s[i].credit
  {
    BalanceFacts(a, burst, s, j - 1);
    if j > i + 1 {
      Budget(a, burst, s, i, j - 1);
    }
  }

  /** One attempt to take `n` bytes at a time. */
  datatype Attempt = Attempt(time: real, n: nat)

  /** The bucket after the first `k` attempts, by whichever callers. */
  function Run(b: Bucket, s: seq<Attempt>, k: nat): Bucket
    requires k <= |s|
  {
    if k == 0 then b else Turn(Run(b, s, k - 1), s[k - 1].time, s[k - 1].n)
  }

  function Granted(b: Bucket, now: real, n: nat): nat {
    if Pays(b, now, n) then n else 0
  }

  /** The bytes granted by attempts `i` up to `j`, the latter not included. */
  function Total(b: Bucket, s: seq<Attempt>, i: nat, j: nat): nat
    requires i <= j <= |s|
  {
    if i == j then 0 else Total(b, s, i, j - 1) + Granted(Run(b, s, j - 1), s[j - 1].time, s[j - 1].n)
  }

  ghost predicate Monotone(b: Bucket, s: seq<Attempt>) {
    && (s != [] ==> b.last <= s[0].time)
    && forall i, j :: 0 <= i < j < |s| ==> s[i].time <= s[j].time
  }

  function AccountOf(b: Bucket): Account {
    Account(b.tokens, b.rate * b.last)
  }

  function TakeOf(rate: real, a: Attempt): Take {
    Take(rate * a.time, a.n as real)
  }

  lemma {:induction false} Distribute(t: real, l: real, r: real)
    ensures (t - l) * r == r * t - r * l
  {}

  lemma {:induction false} RefillIsFull(b: Bucket, a: Attempt)
    ensures Refilled(b, a.time).tokens == Full(AccountOf(b), b.burst, TakeOf(b.rate, a))
  {
    Distribute(a.time, b.last, b.rate);
  }

  lemma {:induction false} PaysIsPaid(b: Bucket, a: Attempt, full: real)
    requires full == Refilled(b, a.time).tokens
    ensures Turn(b, a.time, a.n).tokens == full - Granted(b, a.time, a.n) as real
    ensures Granted(b, a.time, a.n) as real == if full >= a.n as real then a.n as real else 0.0
  {}

  /** A turn of the bucket is an attempt on its account. */
  lemma {:induction false} TurnIsTake(b: Bucket, a: Attempt)
    ensures var t := TakeOf(b.rate, a);
      && AccountOf(Turn(b, a.time, a.n)) ==
         Account(Full(AccountOf(b), b.burst, t) - Paid(AccountOf(b), b.burst, t), t.credit)
      && Granted(b, a.time, a.n) as real == Paid(AccountOf(b), b.burst, t)
      && Turn(b, a.time, a.n).rate == b.rate && Turn(b, a.time, a.n).burst == b.burst
  {
    RefillIsFull(b, a);
    PaysIsPaid(b, a, Full(AccountOf(b), b.burst, TakeOf(b.rate, a)));
    assert Turn(b, a.time, a.n).last == a.time;
  }

  /** `ts` are the attempts with the clock in bytes. */
  ghost predicate InBytes(rate: real, s: seq<Attempt>, ts: seq<Take>) {
    |ts| == |s| && forall i :: 0 <= i < |s| ==> ts[i] == TakeOf(rate, s[i])
  }

  /** Every run has such a view. */
  function Takes(rate: real, s: seq<Attempt>): (ts: seq<Take>)
    ensures |ts| == |s|
  {
    if s == [] then [] else Takes(rate, s[..|s| - 1]) + [TakeOf(rate, s[|s| - 1])]
  }

  lemma {:induction false} TakesInBytes(rate: real, s: seq<Attempt>)
    ensures InBytes(rate, s, Takes(rate, s))
  {
    if s != [] {
      TakesInBytes(rate, s[..|s| - 1]);
    }
  }

  ghost predicate Accounts(b: Bucket, s: seq<Attempt>, ts: seq<Take>, k: nat)
    requires k <= |s| == |ts|
  {
    && Run(b, s, k).rate == b.rate && Run(b, s, k).burst == b.burst
    && AccountOf(Run(b, s, k)) == Balance(AccountOf(b), b.burst, ts, k)
  }

  lemma {:induction false} RunIsBalance(b: Bucket, s: seq<Attempt>, ts: seq<Take>, k: nat)
    requires InBytes(b.rate, s, ts) && k <= |s|
    ensures Accounts(b, s, ts, k)
  {
    if k > 0 {
      RunIsBalance(b, s, ts, k - 1);
      TurnIsTake(Run(b, s, k - 1), s[k - 1]);
    }
  }

  lemma {:induction false} TotalIsSpent(b: Bucket, s: seq<Attempt>, ts: seq<Take>, i: nat, j: nat)
    requires InBytes(b.rate, s, ts) && i <= j <= |s|
    ensures Total(b, s, i, j) as real == Spent(AccountOf(b), b.burst, ts, i, j)
  {
    if i < j {
      TotalIsSpent(b, s, ts, i, j - 1);
      RunIsBalance(b, s, ts, j - 1);
      TurnIsTake(Run(b, s, j - 1), s[j - 1]);
    }
  }

  lemma {:induction false} CreditOrder(rate: real, s: Attempt, t: Attempt)
    requires 0.0 <= rate && s.time <= t.time
    ensures TakeOf(rate, s).credit <= TakeOf(rate, t).credit
  {
    Scale(s.time, t.time, rate);
  }

  lemma {:induction false} CreditsRise(b: Bucket, s: seq<Attempt>, ts: seq<Take>)
    requires 0.0 <= b.rate && Monotone(b, s) && InBytes(b.rate, s, ts)
    ensures Rising(AccountOf(b), ts)
  {
    if s != [] {
      CreditOrder(b.rate, Attempt(b.last, 0), s[0]);
    }
    forall i, j | 0 <= i < j < |s| ensures ts[i].credit <= ts[j].credit {
      CreditOrder(b.rate, s[i], s[j]);
    }
  }

  lemma {:induction false} BoundInBytes(a: Account, burst: real, ts: seq<Take>, i: nat, j: nat)
    requires 0.0 <= a.tokens <= burst && Rising(a, ts) && i <= j < |ts|
    ensures Spent(a, burst, ts, i, j + 1) <= burst + (ts[j].credit - ts[i].credit)
  {
    Budget(a, burst, ts, i, j + 1);
    BalanceFacts(a, burst, ts, j + 1);
  }

  lemma {:induction false} BoundInCredits(b: Bucket, s: seq<Attempt>, ts: seq<Take>, i: nat, j: nat)
    requires Valid(b) && Monotone(b, s) && InBytes(b.rate, s, ts) && i <= j < |s|
    ensures Total(b, s, i, j + 1) as real <= b.burst + (ts[j].credit - ts[i].credit)
  {
    CreditsRise(b, s, ts);
    BoundInBytes(AccountOf(b), b.burst, ts, i, j);
    TotalIsSpent(b, s, ts, i, j + 1);
  }

  lemma {:induction false} EarnedBetween(rate: real, s: seq<Attempt>, i: nat, j: nat)
    requires i < |s| && j < |s|
    ensures Takes(rate, s)[j].credit - Takes(rate, s)[i].credit == rate * (s[j].time - s[i].time)
  {
    TakesInBytes(rate, s);
    Distribute(s[j].time, s[i].time, rate);
    assert Takes(rate, s)[i] == TakeOf(rate, s[i]) && Takes(rate, s)[j] == TakeOf(rate, s[j]);
  }

  lemma {:induction false} BoundInTakes(b: Bucket, s: seq<Attempt>, i: nat, j: nat)
    requires Valid(b) && Monotone(b, s) && i <= j < |s|
    ensures Total(b, s, i, j + 1) as real <= b.burst + (Takes(b.rate, s)[j].credit - Takes(b.rate, s)[i].credit)
  {
    TakesInBytes(b.rate, s);
    BoundInCredits(b, s, Takes(b.rate, s), i, j);
  }

  lemma {:induction false} InRealTime(b: Bucket, s: seq<Attempt>, i: nat, j: nat, granted: real)
    requires i <= j < |s| && granted <= b.burst + (Takes(b.rate, s)[j].credit - Takes(b.rate, s)[i].credit)
    ensures granted <= b.burst + b.rate * (s[j].time - s[i].time)
  {
    EarnedBetween(b.rate, s, i, j);
  }

  /** For any run of attempts under a monotone clock, the bytes granted between
      two of them, both included, stay within the burst and what the rate earns
      from the first time to the second. */
  lemma {:induction false} RateBound(b: Bucket, s: seq<Attempt>, i: nat, j: nat)
    requires Valid(b) && Monotone(b, s) && i <= j < |s|
    ensures Total(b, s, i, j + 1) as real <= b.burst + b.rate * (s[j].time - s[i].time)
  {
    BoundInTakes(b, s, i, j);
    InRealTime(b, s, i, j, Total(b, s, i, j + 1) as real);
  }

  // ---- the throttled writer ----

  function Chunk(burst: real): (c: nat)
    ensures 1 <= c <= CHUNK_SIZE && (burst >= 1.0 ==> c as real <= burst)
    ensures burst >= CHUNK_SIZE as real ==> c == CHUNK_SIZE
    ensures 1.0 <= burst < CHUNK_SIZE as real ==> burst - 1.0 < c as real
  {
    var whole := burst.Floor;
    var c := if whole < CHUNK_SIZE then whole else CHUNK_SIZE;
    if c < 1 then 1 else c
  }

  function Concat(parts: seq<Bytes>): Bytes {
    if parts == [] then [] else Concat(parts[..|parts| - 1]) + parts[|parts| - 1]
  }

  /** Writes the data in chunks; `grants` says how many waits succeed before the
      context ends or a write fails. Without a limiter it is one write. */
  method WriteThrottled(data: Bytes, limited: bool, burst: real, grants: nat) returns (ok: bool, parts: seq<Bytes>)
    ensures Concat(parts) <= data && (ok ==> Concat(parts) == data)
    ensures !limited ==> ok && parts == [data]
    ensures limited ==> forall i :: 0 <= i < |parts| ==> 0 < |parts[i]| <= Chunk(burst)
    ensures limited ==> forall i :: 0 <= i < |parts| - 1 ==> |parts[i]| == Chunk(burst)
    ensures limited && !ok ==> |parts| == grants && Concat(parts) < data
  {
    if !limited {
      assert [data][..0] == [];
      assert Concat([data]) == [] + data;
      return true, [data];
    }
    var chunk := Chunk(burst);
    parts := [];
    var off := 0;
    while off < |data|
      invariant off <= |data| && Concat(parts) == data[..off] && |parts| <= grants
      invariant forall i :: 0 <= i < |parts| ==> 0 < |parts[i]| <= chunk
      invariant off < |data| ==> forall i :: 0 <= i < |parts| ==> |parts[i]| == chunk
      invariant forall i :: 0 <= i < |parts| - 1 ==> |parts[i]| == chunk
    {
      var end := if off + chunk > |data| then |data| else off + chunk;
      if |parts| == grants {
        return false, parts;
      }
      ghost var before := parts;
      parts := parts + [data[off..end]];
      assert parts[..|parts| - 1] == before;
      assert data[..end] == data[..off] + data[off..end];
      off := end;
    }
    ok := true;
  }
}
