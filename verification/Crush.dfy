module Crush {

  // CRUSH-lite placement: weighted rendezvous hashing with failure-domain spread.
  //
  // Nodes are objects with an identity; their scores are an arbitrary function of
  // the node. `Scored` is one row of the score table that Placement sorts.

  class Node {
    const id: int
    const weight: int
    const addr: string
    const domain: string

    constructor (id: int, weight: int, addr: string, domain: string)
      ensures this.id == id && this.weight == weight && this.addr == addr && this.domain == domain
    {
      this.id, this.weight, this.addr, this.domain := id, weight, addr, domain;
    }
  }

  datatype Scored = Scored(node: Node, value: real)

  predicate NoDuplicates<T(==)>(s: seq<T>) {
    forall i, j :: 0 <= i < j < |s| ==> s[i] != s[j]
  }

  ghost function Items<T>(s: seq<T>): set<T> {
    set x <- s
  }

  predicate Descending(s: seq<Scored>) {
    forall i, j :: 0 <= i < j < |s| ==> s[i].value >= s[j].value
  }

  // ---- the two passes, as sequences ----

  /** The domains of the first `j` rows. */
  ghost function Domains(s: seq<Scored>, j: nat): set<string>
    requires j <= |s|
  {
    set i | 0 <= i < j :: s[i].node.domain
  }

  ghost function Spread(s: seq<Scored>, j: nat): nat
    requires j <= |s|
  {
    |Domains(s, j)|
  }

  /** Row `j` is the first of its domain. */
  ghost predicate IsFirst(s: seq<Scored>, j: nat)
    requires j < |s|
  {
    s[j].node.domain !in Domains(s, j)
  }

  /** Those of the first `j` rows that the first pass takes. */
  ghost function Firsts(s: seq<Scored>, j: nat): seq<Scored>
    requires j <= |s|
  {
    if j == 0 then [] else Firsts(s, j - 1) + if IsFirst(s, j - 1) then [s[j - 1]] else []
  }

  /** Those of the first `j` rows that the first pass skips. */
  ghost function Others(s: seq<Scored>, j: nat): seq<Scored>
    requires j <= |s|
  {
    if j == 0 then [] else Others(s, j - 1) + if IsFirst(s, j - 1) then [] else [s[j - 1]]
  }

  /** The order in which the two passes pick rows. */
  ghost function Priority(s: seq<Scored>): seq<Scored> {
    Firsts(s, |s|) + Others(s, |s|)
  }

  lemma {:induction false} SpreadStep(s: seq<Scored>, j: nat)
    requires j < |s|
    ensures Domains(s, j + 1) == Domains(s, j) + {s[j].node.domain}
    ensures Spread(s, j + 1) == Spread(s, j) + if IsFirst(s, j) then 1 else 0
  {
    assert Domains(s, j + 1) == Domains(s, j) + {s[j].node.domain};
    if !IsFirst(s, j) {
      assert Domains(s, j + 1) == Domains(s, j);
    }
  }

  lemma {:induction false} PassLengths(s: seq<Scored>, j: nat)
    requires j <= |s|
    ensures |Firsts(s, j)| == Spread(s, j) <= j && |Others(s, j)| == j - Spread(s, j)
  {
    if j == 0 {
      assert Domains(s, 0) == {};
    } else {
      PassLengths(s, j - 1);
      SpreadStep(s, j - 1);
    }
  }

  lemma {:induction false} SpreadMonotone(s: seq<Scored>, i: nat, j: nat)
    requires i <= j <= |s|
    ensures Spread(s, i) <= Spread(s, j)
  {
    SubsetSize(Domains(s, i), Domains(s, j));
  }

  lemma {:induction false} PassPrefixes(s: seq<Scored>, i: nat, j: nat)
    requires i <= j <= |s|
    ensures Firsts(s, i) <= Firsts(s, j) && Others(s, i) <= Others(s, j) && Spread(s, i) <= Spread(s, j)
    decreases j - i
  {
    SpreadMonotone(s, i, j);
    if i < j {
      PassPrefixes(s, i, j - 1);
      PrefixSnoc(Firsts(s, i), Firsts(s, j - 1), if IsFirst(s, j - 1) then [s[j - 1]] else []);
      PrefixSnoc(Others(s, i), Others(s, j - 1), if IsFirst(s, j - 1) then [] else [s[j - 1]]);
    }
  }

  lemma {:induction false} PrefixSnoc<T>(a: seq<T>, b: seq<T>, c: seq<T>)
    requires a <= b
    ensures a <= b + c
  {}

  lemma {:induction false} PassMembers(s: seq<Scored>, j: nat)
    requires j <= |s|
    ensures forall i :: 0 <= i < j ==> s[i] in Firsts(s, j) || s[i] in Others(s, j)
    ensures (forall x <- Firsts(s, j) :: x in s) && (forall x <- Others(s, j) :: x in s)
  {
    if j > 0 {
      PassMembers(s, j - 1);
    }
  }

  // ---- ranks ----

  /** The position of row `j` in the priority order. */
  ghost function Rank(s: seq<Scored>, j: nat): int
    requires j < |s|
  {
    if IsFirst(s, j) then Spread(s, j) else Spread(s, |s|) + j - Spread(s, j)
  }

  /** Row `j` is picked at its rank. */
  lemma {:induction false} RankPosition(s: seq<Scored>, j: nat)
    requires j < |s|
    ensures |Priority(s)| == |s| && 0 <= Rank(s, j) < |s| && Priority(s)[Rank(s, j)] == s[j]
  {
    PassLengths(s, |s|);
    PassLengths(s, j);
    PassLengths(s, j + 1);
    PassPrefixes(s, j + 1, |s|);
    if IsFirst(s, j) {
      assert Firsts(s, j + 1)[Spread(s, j)] == s[j];
    } else {
      assert Others(s, j + 1)[j - Spread(s, j)] == s[j];
    }
  }

  // ---- optimality ----

  /** How many of the first `i` rows belong to `t`. */
  ghost function CountIn(s: seq<Scored>, t: set<Scored>, i: nat): nat
    requires i <= |s|
  {
    if i == 0 then 0 else CountIn(s, t, i - 1) + if s[i - 1] in t then 1 else 0
  }

  /** The total score of the first `i` rows that belong to `t`. */
  ghost function Total(s: seq<Scored>, t: set<Scored>, i: nat): real
    requires i <= |s|
  {
    if i == 0 then 0.0 else Total(s, t, i - 1) + if s[i - 1] in t then s[i - 1].value else 0.0
  }

  ghost function Times(v: real, n: nat): real {
    if n == 0 then 0.0 else Times(v, n - 1) + v
  }

  lemma {:induction false} TimesMonotone(a: real, b: real, n: nat)
    requires a >= b
    ensures Times(a, n) >= Times(b, n)
  {
    if n > 0 {
      TimesMonotone(a, b, n - 1);
    }
  }

  /** Summation by parts: if no prefix holds more of `t` than of `r`, the lead of
      `r` is at least the last score times the difference in count. */
  lemma {:induction false} LeadBound(s: seq<Scored>, t: set<Scored>, r: set<Scored>, i: nat)
    requires 0 < i <= |s| && Descending(s)
    requires forall j :: 0 <= j <= i ==> CountIn(s, t, j) <= CountIn(s, r, j)
    ensures CountIn(s, t, i) <= CountIn(s, r, i)
    ensures Total(s, r, i) - Total(s, t, i) >= Times(s[i - 1].value, CountIn(s, r, i) - CountIn(s, t, i))
  {
    assert CountIn(s, t, i - 1) <= CountIn(s, r, i - 1);
    var lead := CountIn(s, r, i - 1) - CountIn(s, t, i - 1);
    if i > 1 {
      LeadBound(s, t, r, i - 1);
      TimesMonotone(s[i - 2].value, s[i - 1].value, lead);
    }
    assert Times(s[i - 1].value, lead + 1) == Times(s[i - 1].value, lead) + s[i - 1].value;
  }

  lemma {:induction false} Dominated(s: seq<Scored>, t: set<Scored>, r: set<Scored>)
    requires Descending(s) && CountIn(s, t, |s|) == CountIn(s, r, |s|)
    requires forall j :: 0 <= j <= |s| ==> CountIn(s, t, j) <= CountIn(s, r, j)
    ensures Total(s, t, |s|) <= Total(s, r, |s|)
  {
    if |s| > 0 {
      LeadBound(s, t, r, |s|);
      assert Times(s[|s| - 1].value, 0) == 0.0;
    }
  }

  /** The rows of `s` picked when `k` are wanted. */
  ghost function Picked(s: seq<Scored>, k: nat): set<Scored>
    requires k <= |Priority(s)|
  {
    Items(Priority(s)[..k])
  }

  lemma {:induction false} PriorityLength(s: seq<Scored>)
    ensures |Priority(s)| == |s|
  {
    PassLengths(s, |s|);
  }

  lemma {:induction false} PriorityNoDuplicates(s: seq<Scored>)
    requires NoDuplicates(s)
    ensures |Priority(s)| == |s| && NoDuplicates(Priority(s)) && Items(Priority(s)) == Items(s)
  {
    PriorityLength(s);
    PassMembers(s, |s|);
    var p := Priority(s);
    assert Items(p) == Items(s);
    SetSize(s);
    forall i, j | 0 <= i < j < |p| ensures p[i] != p[j] {
      if p[i] == p[j] {
        RepeatShrinks(p, i, j);
      }
    }
  }

  /** A repeated element makes the set smaller than the sequence. */
  lemma {:induction false} RepeatShrinks<T>(p: seq<T>, i: nat, j: nat)
    requires i < j < |p| && p[i] == p[j]
    ensures |Items(p)| < |p|
  {
    var q := p[..j] + p[j + 1..];
    SetBound(q);
    forall x | x in p ensures x in q {
      var m :| 0 <= m < |p| && p[m] == x;
      if m < j {
        assert q[m] == x;
      } else if m > j {
        assert q[m - 1] == x;
      } else {
        assert q[i] == x;
      }
    }
    assert Items(q) == Items(p);
  }

  lemma {:induction false} SetSize<T>(s: seq<T>)
    requires NoDuplicates(s)
    ensures |Items(s)| == |s|
  {
    if s != [] {
      var n := |s| - 1;
      SetSize(s[..n]);
      assert s[n] !in s[..n];
      assert Items(s) == Items(s[..n]) + {s[n]};
    }
  }

  lemma {:induction false} SetBound<T>(s: seq<T>)
    ensures |Items(s)| <= |s|
  {
    if s != [] {
      var n := |s| - 1;
      SetBound(s[..n]);
      assert Items(s) == Items(s[..n]) + {s[n]};
    }
  }

  /** Row `j` is picked exactly when its rank is below `k`. */
  lemma {:induction false} PickedByRank(s: seq<Scored>, k: nat, j: nat)
    requires NoDuplicates(s) && j < |s| && k <= |s|
    ensures |Priority(s)| == |s| && (s[j] in Picked(s, k) <==> Rank(s, j) < k)
  {
    PriorityNoDuplicates(s);
    RankPosition(s, j);
    var p := Priority(s);
    if Rank(s, j) < k {
      assert p[..k][Rank(s, j)] == s[j];
    }
    if s[j] in Picked(s, k) {
      var m :| 0 <= m < k && p[..k][m] == s[j];
      assert p[m] == p[Rank(s, j)];
    }
  }

  function Min(a: int, b: int): int { if a < b then a else b }

  /** How many of the first `i` rows are picked, given the number `d` of domains
      among them and the number `all` of domains. */
  function PickedAmong(k: nat, all: nat, i: nat, d: nat): int {
    if k <= all then Min(k, d) else d + Min(k - all, i - d)
  }

  lemma {:induction false} PickedCount(s: seq<Scored>, k: nat, i: nat)
    requires NoDuplicates(s) && i <= |s| && k <= |s| == |Priority(s)|
    ensures CountIn(s, Picked(s, k), i) == PickedAmong(k, Spread(s, |s|), i, Spread(s, i))
  {
    if i == 0 {
      assert Domains(s, 0) == {};
    } else {
      PickedCount(s, k, i - 1);
      PickedByRank(s, k, i - 1);
      PickedStep(s, k, i - 1);
    }
  }

  lemma {:induction false} PickedStep(s: seq<Scored>, k: nat, j: nat)
    requires j < |s| && k <= |s|
    ensures var all := Spread(s, |s|);
            PickedAmong(k, all, j + 1, Spread(s, j + 1)) ==
                PickedAmong(k, all, j, Spread(s, j)) + if Rank(s, j) < k then 1 else 0
  {
    SpreadStep(s, j);
    PassPrefixes(s, j + 1, |s|);
    PassLengths(s, j);
  }

  /** The members of `t` among the first `i` rows. */
  ghost function Among(s: seq<Scored>, t: set<Scored>, i: nat): set<Scored>
    requires i <= |s|
  {
    set j | 0 <= j < i && s[j] in t :: s[j]
  }

  lemma {:induction false} AmongCount(s: seq<Scored>, t: set<Scored>, i: nat)
    requires NoDuplicates(s) && i <= |s|
    ensures |Among(s, t, i)| == CountIn(s, t, i)
  {
    if i == 0 {
      assert Among(s, t, 0) == {};
    } else {
      AmongCount(s, t, i - 1);
      var x := s[i - 1];
      assert x !in Among(s, t, i - 1);
      assert Among(s, t, i) == Among(s, t, i - 1) + (if x in t then {x} else {});
    }
  }

  ghost function DomainSet(t: set<Scored>): set<string> {
    set x <- t :: x.node.domain
  }

  lemma {:induction false} DomainSetBound(t: set<Scored>)
    ensures |DomainSet(t)| <= |t|
    decreases |t|
  {
    if t != {} {
      var x :| x in t;
      DomainSetBound(t - {x});
      assert t == (t - {x}) + {x};
      assert DomainSet(t) == DomainSet(t - {x}) + {x.node.domain};
    } else {
      assert DomainSet(t) == {};
    }
  }

  /** A set of `k` rows covers at most `min(k, all domains)` domains. */
  lemma {:induction false} SpreadLimit(s: seq<Scored>, t: set<Scored>)
    requires t <= Items(s)
    ensures |DomainSet(t)| <= Min(|t|, Spread(s, |s|))
  {
    DomainSetBound(t);
    SubsetSize(DomainSet(t), Domains(s, |s|));
  }

  lemma {:induction false} SubsetSize<T>(a: set<T>, b: set<T>)
    requires a <= b
    ensures |a| <= |b|
  {
    assert b == a + (b - a);
  }

  /** A set with the greatest spread has no more rows in any prefix than the picked one. */
  lemma {:induction false} PrefixBound(s: seq<Scored>, t: set<Scored>, i: nat)
    requires NoDuplicates(s) && t <= Items(s) && i <= |s|
    requires |DomainSet(t)| == Min(|t|, Spread(s, |s|))
    ensures CountIn(s, t, i) <= PickedAmong(|t|, Spread(s, |s|), i, Spread(s, i))
  {
    var inside := Among(s, t, i);
    var outside := t - inside;
    var k, all, d := |t|, Spread(s, |s|), Spread(s, i);
    AmongCount(s, t, i);
    assert t == inside + outside;
    assert DomainSet(t) == DomainSet(inside) + DomainSet(outside);
    DomainSetBound(inside);
    DomainSetBound(outside);
    SubsetSize(DomainSet(inside), Domains(s, i));
    assert |DomainSet(t)| <= |DomainSet(inside)| + |DomainSet(outside)|;
    CountBound(s, t, i);
    PassLengths(s, i);
    BoundArithmetic(|inside|, |outside|, |DomainSet(inside)|, |DomainSet(outside)|, |DomainSet(t)|, k, all, i, d);
  }

  lemma {:induction false} BoundArithmetic(inside: nat, outside: nat, dIn: nat, dOut: nat, dAll: nat, k: nat, all: nat,
                                           i: nat, d: nat)
    requires inside + outside == k && dAll <= dIn + dOut && dIn <= inside && dOut <= outside && dIn <= d && d <= i &&
             inside <= i
    requires dAll == Min(k, all)
    ensures inside <= PickedAmong(k, all, i, d)
  {}

  lemma {:induction false} CountBound(s: seq<Scored>, t: set<Scored>, i: nat)
    requires i <= |s|
    ensures CountIn(s, t, i) <= i
  {
    if i > 0 {
      CountBound(s, t, i - 1);
    }
  }

  /** The picked rows are optimal: as many domains as any set of that size can
      have, and the greatest total score among the sets with that many. */
  lemma {:induction false} PickedIsOptimal(s: seq<Scored>, k: nat, t: set<Scored>)
    requires NoDuplicates(s) && Descending(s) && k <= |s| && t <= Items(s) && |t| == k
    ensures |Priority(s)| == |s| && Picked(s, k) <= Items(s) && |Picked(s, k)| == k
    ensures |DomainSet(t)| <= |DomainSet(Picked(s, k))|
    ensures |DomainSet(t)| == |DomainSet(Picked(s, k))| ==> Total(s, t, |s|) <= Total(s, Picked(s, k), |s|)
  {
    PriorityNoDuplicates(s);
    var p := Picked(s, k);
    SetSize(Priority(s)[..k]);
    SpreadLimit(s, t);
    PickedSpread(s, k);
    if |DomainSet(t)| == |DomainSet(p)| {
      forall i | 0 <= i <= |s| ensures CountIn(s, t, i) <= CountIn(s, p, i) {
        PrefixBound(s, t, i);
        PickedCount(s, k, i);
      }
      AmongCount(s, t, |s|);
      AmongCount(s, p, |s|);
      forall x <- p ensures x in s {
        assert x in Items(Priority(s));
      }
      assert Among(s, t, |s|) == t && Among(s, p, |s|) == p;
      Dominated(s, t, p);
    }
  }

  /** Some prefix has exactly `k` domains. */
  lemma {:induction false} SpreadHits(s: seq<Scored>, k: nat, n: nat) returns (j: nat)
    requires n <= |s| && k <= Spread(s, n)
    ensures j <= n && Spread(s, j) == k
  {
    if k == Spread(s, n) {
      return n;
    }
    assert n > 0 by { assert Domains(s, 0) == {}; }
    SpreadStep(s, n - 1);
    j := SpreadHits(s, k, n - 1);
  }

  lemma {:induction false} DomainSetSnoc(f: seq<Scored>, x: Scored)
    ensures DomainSet(Items(f + [x])) == DomainSet(Items(f)) + {x.node.domain}
  {
    assert Items(f + [x]) == Items(f) + {x};
  }

  lemma {:induction false} FirstsDomains(s: seq<Scored>, j: nat)
    requires j <= |s|
    ensures DomainSet(Items(Firsts(s, j))) == Domains(s, j)
  {
    if j > 0 {
      FirstsDomains(s, j - 1);
      SpreadStep(s, j - 1);
      DomainSetSnoc(Firsts(s, j - 1), s[j - 1]);
      assert Firsts(s, j - 1) + [] == Firsts(s, j - 1);
    }
  }

  lemma {:induction false} PickedSpread(s: seq<Scored>, k: nat)
    requires NoDuplicates(s) && k <= |s| == |Priority(s)|
    ensures |DomainSet(Picked(s, k))| == Min(k, Spread(s, |s|))
  {
    PassLengths(s, |s|);
    var j := SpreadHits(s, Min(k, Spread(s, |s|)), |s|);
    PassPrefixes(s, j, |s|);
    PassLengths(s, j);
    FirstsDomains(s, j);
    var early, p := Firsts(s, j), Priority(s)[..k];
    assert early == p[..|early|];
    if k <= Spread(s, |s|) {
      assert p == early;
    } else {
      PriorityNoDuplicates(s);
      assert DomainSet(Items(early)) <= DomainSet(Items(p)) by {
        assert forall x <- early :: x in p;
      }
      forall d <- DomainSet(Items(p)) ensures d in Domains(s, |s|) {
        var x :| x in p && x.node.domain == d;
        assert x in Items(Priority(s)) && x in s;
      }
      PassPrefixes(s, j, |s|);
      SubsetSize(Domains(s, |s|), Domains(s, |s|));
      SameSize(Domains(s, j), DomainSet(Items(p)), Domains(s, |s|));
    }
  }

  lemma {:induction false} SameSize<T>(a: set<T>, b: set<T>, c: set<T>)
    requires a <= b <= c && |a| == |c|
    ensures |b| == |c|
  {
    SubsetSize(a, b);
    SubsetSize(b, c);
  }

  // ---- the stable sort ----

  /** `x` inserted into `t` behind every row with at least its score. */
  function InsertLast(t: seq<Scored>, x: Scored): seq<Scored> {
    if t == [] || t[|t| - 1].value >= x.value then t + [x]
    else InsertLast(t[..|t| - 1], x) + [t[|t| - 1]]
  }

  /** The rows by descending score, ties in their given order. */
  function Sorted(xs: seq<Scored>): seq<Scored> {
    if xs == [] then [] else InsertLast(Sorted(xs[..|xs| - 1]), xs[|xs| - 1])
  }

  lemma {:induction false} InsertLastMembers(t: seq<Scored>, x: Scored)
    ensures multiset(InsertLast(t, x)) == multiset(t) + multiset{x}
    ensures forall y <- InsertLast(t, x) :: y in t || y == x
  {
    if !(t == [] || t[|t| - 1].value >= x.value) {
      InsertLastMembers(t[..|t| - 1], x);
      assert t == t[..|t| - 1] + [t[|t| - 1]];
    }
  }

  lemma {:induction false} InsertLastDescending(t: seq<Scored>, x: Scored)
    requires Descending(t)
    ensures Descending(InsertLast(t, x))
  {
    if !(t == [] || t[|t| - 1].value >= x.value) {
      var init := t[..|t| - 1];
      InsertLastDescending(init, x);
      InsertLastMembers(init, x);
      var r := InsertLast(init, x);
      forall i | 0 <= i < |r| ensures r[i].value >= t[|t| - 1].value {
        assert r[i] in init || r[i] == x;
      }
    }
  }

  lemma {:induction false} SortedFacts(xs: seq<Scored>)
    ensures Descending(Sorted(xs)) && multiset(Sorted(xs)) == multiset(xs) && |Sorted(xs)| == |xs|
  {
    if xs != [] {
      var n := |xs| - 1;
      SortedFacts(xs[..n]);
      InsertLastDescending(Sorted(xs[..n]), xs[n]);
      InsertLastMembers(Sorted(xs[..n]), xs[n]);
      assert xs == xs[..n] + [xs[n]];
    }
    assert |multiset(Sorted(xs))| == |Sorted(xs)|;
  }

  /** The rows with score `v`, in their order. */
  function Tied(s: seq<Scored>, v: real): seq<Scored> {
    if s == [] then [] else Tied(s[..|s| - 1], v) + if s[|s| - 1].value == v then [s[|s| - 1]] else []
  }

  lemma {:induction false} TiedInsert(t: seq<Scored>, x: Scored, v: real)
    requires Descending(t)
    ensures Tied(InsertLast(t, x), v) == Tied(t, v) + if x.value == v then [x] else []
  {
    var r := InsertLast(t, x);
    if t == [] || t[|t| - 1].value >= x.value {
      assert r[..|r| - 1] == t;
    } else {
      var init, last := t[..|t| - 1], t[|t| - 1];
      TiedInsert(init, x, v);
      assert r[..|r| - 1] == InsertLast(init, x);
      if last.value == v {
        assert Tied(r, v) == Tied(init, v) + [last];
      }
    }
  }

  /** The sort is stable. */
  lemma {:induction false} SortedIsStable(xs: seq<Scored>, v: real)
    ensures Tied(Sorted(xs), v) == Tied(xs, v)
  {
    if xs != [] {
      var n := |xs| - 1;
      SortedIsStable(xs[..n], v);
      SortedFacts(xs[..n]);
      TiedInsert(Sorted(xs[..n]), xs[n], v);
    }
  }

  /** `s` without the row `x`. */
  function Without(s: seq<Scored>, x: Scored): (r: seq<Scored>)
    ensures (forall y <- r :: y in s && y != x) && (forall y <- s :: y != x ==> y in r)
  {
    if s == [] then []
    else
      var last := s[|s| - 1];
      assert s == s[..|s| - 1] + [last];
      if last == x then Without(s[..|s| - 1], x) else Without(s[..|s| - 1], x) + [last]
  }

  lemma {:induction false} WithoutSnoc(s: seq<Scored>, y: Scored, x: Scored)
    ensures Without(s + [y], x) == if y == x then Without(s, x) else Without(s, x) + [y]
  {
    assert (s + [y])[..|s|] == s;
  }

  lemma {:induction false} InsertSnoc(t: seq<Scored>, z: Scored, y: Scored)
    requires z.value < y.value
    ensures InsertLast(t + [z], y) == InsertLast(t, y) + [z]
  {
    assert (t + [z])[..|t|] == t;
  }

  lemma {:induction false} InsertWithout(t: seq<Scored>, y: Scored, x: Scored)
    requires Descending(t)
    ensures Without(InsertLast(t, y), x) == if y == x then Without(t, x) else InsertLast(Without(t, x), y)
  {
    if t == [] || t[|t| - 1].value >= y.value {
      WithoutSnoc(t, y, x);
      if y != x {
        InsertAtEnd(Without(t, x), t, y);
      }
    } else {
      var init, last := t[..|t| - 1], t[|t| - 1];
      InsertWithout(init, y, x);
      WithoutSnoc(InsertLast(init, y), last, x);
      if last != x && y != x {
        InsertSnoc(Without(init, x), last, y);
      }
    }
  }

  lemma {:induction false} InsertAtEnd(w: seq<Scored>, t: seq<Scored>, y: Scored)
    requires Descending(t) && (t == [] || t[|t| - 1].value >= y.value) && forall z <- w :: z in t
    ensures InsertLast(w, y) == w + [y]
  {
    if w != [] {
      assert w[|w| - 1] in t;
    }
  }

  /** Sorting commutes with leaving one row out. */
  lemma {:induction false} SortedWithout(xs: seq<Scored>, x: Scored)
    ensures Without(Sorted(xs), x) == Sorted(Without(xs, x))
  {
    if xs != [] {
      var n := |xs| - 1;
      SortedWithout(xs[..n], x);
      SortedFacts(xs[..n]);
      InsertWithout(Sorted(xs[..n]), xs[n], x);
      if xs[n] != x {
        var w := Without(xs[..n], x);
        assert (w + [xs[n]])[..|w|] == w;
      }
    }
  }

  lemma {:induction false} SortedNoDuplicates(xs: seq<Scored>)
    requires NoDuplicates(xs)
    ensures NoDuplicates(Sorted(xs)) && |Sorted(xs)| == |xs| && Items(Sorted(xs)) == Items(xs)
  {
    SortedFacts(xs);
    var s := Sorted(xs);
    forall x <- s ensures x in xs {
      assert x in multiset(s);
    }
    forall x <- xs ensures x in s {
      assert x in multiset(xs);
    }
    assert Items(s) == Items(xs);
    SetSize(xs);
    forall i, j | 0 <= i < j < |s| ensures s[i] != s[j] {
      if s[i] == s[j] {
        RepeatShrinks(s, i, j);
      }
    }
  }

  // ---- adding and removing one node ----

  /** The new position of the row at `j` once a row is put at `p`. */
  function Shifted(p: nat, j: nat): nat { if j < p then j else j + 1 }

  /** `big` is `s` with the row `x` put at `p`. */
  ghost predicate Extends(big: seq<Scored>, s: seq<Scored>, p: nat, x: Scored) {
    && |big| == |s| + 1 && p <= |s| && big[p] == x
    && forall j :: 0 <= j < |s| ==> big[Shifted(p, j)] == s[j]
  }

  lemma {:induction false} ExtendedDomains(big: seq<Scored>, s: seq<Scored>, p: nat, x: Scored, j: nat)
    requires Extends(big, s, p, x) && j <= |s|
    ensures Domains(big, Shifted(p, j)) == Domains(s, j) + if j < p then {} else {x.node.domain}
  {
    var j' := Shifted(p, j);
    forall d | d in Domains(big, j') ensures d in Domains(s, j) + if j < p then {} else {x.node.domain} {
      var i :| 0 <= i < j' && big[i].node.domain == d;
      var i0 := if i < p then i else i - 1;
      if i != p {
        assert Shifted(p, i0) == i && s[i0].node.domain == d;
      }
    }
    forall d | d in Domains(s, j) ensures d in Domains(big, j') {
      var i :| 0 <= i < j && s[i].node.domain == d;
      assert big[Shifted(p, i)].node.domain == d;
    }
  }

  lemma {:induction false} AddOne<T>(u: set<T>, d: T)
    ensures |u| <= |u + {d}| <= |u| + 1
  {
    if d in u {
      assert u + {d} == u;
    }
  }

  lemma {:induction false} ExtendedSpread(big: seq<Scored>, s: seq<Scored>, p: nat, x: Scored, j: nat)
    requires Extends(big, s, p, x) && j <= |s|
    ensures Spread(s, j) <= Spread(big, Shifted(p, j)) <= Spread(s, j) + if j < p then 0 else 1
  {
    ExtendedDomains(big, s, p, x, j);
    AddOne(Domains(s, j), x.node.domain);
    assert j < p ==> Domains(big, Shifted(p, j)) == Domains(s, j);
  }

  lemma {:induction false} ExtendedFirst(big: seq<Scored>, s: seq<Scored>, p: nat, x: Scored, j: nat)
    requires Extends(big, s, p, x) && j < |s| && IsFirst(big, Shifted(p, j))
    ensures IsFirst(s, j)
  {
    ExtendedDomains(big, s, p, x, j);
    assert big[Shifted(p, j)] == s[j];
  }

  /** A row only moves back in the priority order when another one is added. */
  lemma {:induction false} RankGrows(big: seq<Scored>, s: seq<Scored>, p: nat, x: Scored, j: nat)
    requires Extends(big, s, p, x) && j < |s|
    ensures Rank(s, j) <= Rank(big, Shifted(p, j))
  {
    ExtendedSpread(big, s, p, x, j);
    ExtendedSpread(big, s, p, x, |s|);
    SpreadMonotone(s, j, |s|);
    PassLengths(big, Shifted(p, j));
    if IsFirst(big, Shifted(p, j)) {
      ExtendedFirst(big, s, p, x, j);
    }
  }

  lemma {:induction false} ExtendedNoDuplicates(big: seq<Scored>, s: seq<Scored>, p: nat, x: Scored)
    requires Extends(big, s, p, x) && NoDuplicates(big)
    ensures NoDuplicates(s) && Items(big) == Items(s) + {x} && x !in s
  {
    forall i, j | 0 <= i < j < |s| ensures s[i] != s[j] {
      assert s[i] == big[Shifted(p, i)] && s[j] == big[Shifted(p, j)];
    }
    forall i | 0 <= i < |big| ensures big[i] == x || big[i] in s {
      if i != p {
        var i0 := if i < p then i else i - 1;
        assert big[i] == s[i0];
      }
    }
    forall i | 0 <= i < |s| ensures s[i] in big && s[i] != x {
      assert s[i] == big[Shifted(p, i)];
    }
  }

  /** Whoever is picked among more rows was picked before, the new row aside. */
  lemma {:induction false} PickedShrinks(big: seq<Scored>, s: seq<Scored>, p: nat, x: Scored, k: nat)
    requires Extends(big, s, p, x) && NoDuplicates(big) && k <= |s|
    ensures |Priority(s)| == |s| && |Priority(big)| == |big|
    ensures Picked(big, k) - {x} <= Picked(s, k)
  {
    ExtendedNoDuplicates(big, s, p, x);
    PriorityNoDuplicates(s);
    PriorityNoDuplicates(big);
    forall y | y in Picked(big, k) && y != x ensures y in Picked(s, k) {
      assert y in Items(Priority(big)) && y in Items(s);
      var j :| 0 <= j < |s| && s[j] == y;
      assert big[Shifted(p, j)] == y;
      PickedByRank(big, k, Shifted(p, j));
      RankGrows(big, s, p, x, j);
      PickedByRank(s, k, j);
    }
  }

  /** Up to the new row the passes agree. */
  lemma {:induction false} PassesBefore(big: seq<Scored>, s: seq<Scored>, p: nat, x: Scored, j: nat)
    requires Extends(big, s, p, x) && j <= p
    ensures Firsts(big, j) == Firsts(s, j) && Others(big, j) == Others(s, j)
  {
    if j > 0 {
      PassesBefore(big, s, p, x, j - 1);
      ExtendedDomains(big, s, p, x, j - 1);
      assert big[Shifted(p, j - 1)] == s[j - 1];
    }
  }

  /** After a row whose domain was seen before, only that row differs. */
  lemma {:induction false} PassesAfter(big: seq<Scored>, s: seq<Scored>, p: nat, x: Scored, j: nat)
    requires Extends(big, s, p, x) && p <= j <= |s| && !IsFirst(big, p)
    ensures Firsts(big, j + 1) == Firsts(s, j)
  {
    if j == p {
      PassesBefore(big, s, p, x, p);
    } else {
      PassesAfter(big, s, p, x, j - 1);
      FirstUnchanged(big, s, p, x, j - 1);
    }
  }

  lemma {:induction false} FirstUnchanged(big: seq<Scored>, s: seq<Scored>, p: nat, x: Scored, j: nat)
    requires Extends(big, s, p, x) && p <= j < |s| && !IsFirst(big, p)
    ensures big[j + 1] == s[j] && (IsFirst(big, j + 1) <==> IsFirst(s, j))
  {
    assert big[Shifted(p, j)] == s[j];
    ExtendedDomains(big, s, p, x, j);
    var i :| 0 <= i < p && big[i].node.domain == x.node.domain;
    assert big[Shifted(p, i)] == s[i];
    assert x.node.domain in Domains(s, j);
  }

  /** A row that is not picked can be left out without any change. */
  lemma {:induction false} UnpickedIrrelevant(big: seq<Scored>, s: seq<Scored>, p: nat, x: Scored, k: nat)
    requires Extends(big, s, p, x) && NoDuplicates(big) && k <= |s| == |Priority(s)| && |Priority(big)| == |big|
    requires x !in Picked(big, k)
    ensures Priority(big)[..k] == Priority(s)[..k]
  {
    PickedByRank(big, k, p);
    PassesBefore(big, s, p, x, p);
    PassPrefixes(big, p, |big|);
    PassPrefixes(s, p, |s|);
    PassLengths(big, p);
    PassLengths(big, |big|);
    if IsFirst(big, p) {
      TakeOfPrefix(Firsts(s, p), Firsts(big, |big|), Others(big, |big|), k);
      TakeOfPrefix(Firsts(s, p), Firsts(s, |s|), Others(s, |s|), k);
    } else {
      PassesAfter(big, s, p, x, |s|);
      PrefixOfSum(Firsts(s, |s|), Others(s, p), Others(big, |big|), k);
      PrefixOfSum(Firsts(s, |s|), Others(s, p), Others(s, |s|), k);
    }
  }

  lemma {:induction false} TakeOfPrefix<T>(f: seq<T>, g: seq<T>, o: seq<T>, k: nat)
    requires f <= g && k <= |f|
    ensures (g + o)[..k] == f[..k]
  {}

  lemma {:induction false} PrefixOfSum<T>(f: seq<T>, o: seq<T>, q: seq<T>, k: nat)
    requires o <= q && k <= |f| + |o|
    ensures (f + q)[..k] == (f + o)[..k]
  {}

  // ---- Placement ----

  datatype Result<+T> = Ok(value: T) | Einval

  /** The score table before sorting: the nodes of positive weight, in declaration order. */
  function Rows(nodes: seq<Node?>, score: Node -> real): (r: seq<Scored>)
    ensures forall x <- r :: x.node in nodes && x.node.weight > 0 && x.value == score(x.node)
    ensures forall n <- nodes :: n != null && n.weight > 0 ==> Scored(n, score(n)) in r
  {
    if nodes == [] then [] else
      var init, last := nodes[..|nodes| - 1], nodes[|nodes| - 1];
      assert nodes == init + [last];
      if last != null && last.weight > 0 then Rows(init, score) + [Scored(last, score(last))] else Rows(init, score)
  }

  ghost function Row(n: Node?, score: Node -> real): seq<Scored> {
    if n != null && n.weight > 0 then [Scored(n, score(n))] else []
  }

  lemma {:induction false} RowsSnoc(a: seq<Node?>, n: Node?, score: Node -> real)
    ensures Rows(a + [n], score) == Rows(a, score) + Row(n, score)
  {
    assert (a + [n])[..|a|] == a;
  }

  lemma {:induction false} Regroup(x: seq<Scored>, y: seq<Scored>, z: seq<Scored>)
    ensures (x + y) + z == x + (y + z)
  {}

  /** The table follows the order of the cluster map. */
  lemma {:induction false} RowsInOrder(a: seq<Node?>, b: seq<Node?>, score: Node -> real)
    ensures Rows(a + b, score) == Rows(a, score) + Rows(b, score)
  {
    if b == [] {
      assert a + b == a;
    } else {
      var init, last := b[..|b| - 1], b[|b| - 1];
      assert b == init + [last] && a + b == (a + init) + [last];
      calc {
        Rows(a + b, score);
        { RowsSnoc(a + init, last, score); }
        Rows(a + init, score) + Row(last, score);
        { RowsInOrder(a, init, score); }
        (Rows(a, score) + Rows(init, score)) + Row(last, score);
        { Regroup(Rows(a, score), Rows(init, score), Row(last, score)); }
        Rows(a, score) + (Rows(init, score) + Row(last, score));
        { RowsSnoc(init, last, score); }
        Rows(a, score) + Rows(b, score);
      }
    }
  }

  function NodesOf(s: seq<Scored>): (r: seq<Node>)
    ensures |r| == |s| && forall i :: 0 <= i < |s| ==> r[i] == s[i].node
  {
    if s == [] then [] else NodesOf(s[..|s| - 1]) + [s[|s| - 1].node]
  }

  /** The rows Placement selects, in its order. */
  ghost function Selection(nodes: seq<Node?>, score: Node -> real, rf: int): seq<Scored>
    requires rf > 0
  {
    var s := Sorted(Rows(nodes, score));
    SortedFacts(Rows(nodes, score));
    PriorityLength(s);
    Priority(s)[..Min(rf, |s|)]
  }

  /** sort.SliceStable, as an insertion sort in place. */
  method SortStable(a: array<Scored>)
    modifies a
    ensures a[..] == Sorted(old(a[..]))
  {
    ghost var all := a[..];
    for i := 0 to a.Length
      invariant a[..i] == Sorted(all[..i])
      invariant a[i..] == all[i..]
    {
      assert a[i] == a[i..][0] == all[i];
      assert all[..i + 1][..i] == all[..i];
      ghost var rest := a[i + 1..];
      SwapBack(a, i);
      assert all[i..][1..] == all[i + 1..];
    }
    assert all[..a.Length] == all && a[..a.Length] == a[..];
  }

  /** The inner loop: swaps `a[i]` back until no smaller score precedes it. */
  method SwapBack(a: array<Scored>, i: nat)
    requires i < a.Length
    modifies a
    ensures a[..i + 1] == InsertLast(old(a[..i]), old(a[i]))
    ensures a[i + 1..] == old(a[i + 1..])
  {
    ghost var t, x := a[..i], a[i];
    var j := i;
    while j > 0 && a[j].value > a[j - 1].value
      invariant 0 <= j <= i && a[j] == x
      invariant forall k :: 0 <= k < j ==> a[k] == t[k]
      invariant forall k :: j < k <= i ==> a[k] == t[k - 1]
      invariant forall k :: j <= k < i ==> t[k].value < x.value
      invariant forall k :: i < k < a.Length ==> a[k] == old(a[k])
    {
      a[j], a[j - 1] := a[j - 1], a[j];
      j := j - 1;
    }
    InsertPosition(t, x, j);
    assert a[..i + 1] == InsertLast(t, x);
  }

  lemma {:induction false} InsertPosition(t: seq<Scored>, x: Scored, j: nat)
    requires j <= |t| && (j == 0 || t[j - 1].value >= x.value)
    requires forall k :: j <= k < |t| ==> t[k].value < x.value
    ensures InsertLast(t, x) == t[..j] + [x] + t[j..]
  {
    if j == |t| {
      assert t[..j] == t && t[j..] == [];
      assert t + [x] + [] == t + [x];
    } else {
      var n := |t| - 1;
      InsertPosition(t[..n], x, j);
      assert t[..n][..j] == t[..j] && t[..n][j..] + [t[n]] == t[j..];
    }
  }

  /** Rows of the same node are the same row. */
  ghost predicate OneRowPerNode(s: seq<Scored>) {
    NoDuplicates(s) && forall x <- s, y <- s :: x.node == y.node ==> x == y
  }

  lemma {:induction false} NodesOfTake(p: seq<Scored>, m: nat)
    requires m < |p|
    ensures NodesOf(p[..m + 1]) == NodesOf(p[..m]) + [p[m].node]
  {
    assert p[..m + 1][..m] == p[..m];
  }

  /** The first pass: one node per domain until `k` are found. */
  method DomainPass(s: seq<Scored>, k: nat) returns (result: seq<Node>)
    requires k <= |s| == |Priority(s)|
    ensures |result| == Min(k, Spread(s, |s|)) && result == NodesOf(Priority(s)[..|result|])
  {
    result := [];
    var used: set<string> := {};
    ghost var p := Priority(s);
    for i := 0 to |s|
      invariant used == Domains(s, i) && |result| == Spread(s, i) <= k
      invariant result == NodesOf(p[..|result|])
    {
      SpreadStep(s, i);
      RankPosition(s, i);
      if |result| == k {
        PassPrefixes(s, i, |s|);
        break;
      }
      if s[i].node.domain !in used {
        used := used + {s[i].node.domain};
        NodesOfTake(p, |result|);
        result := result + [s[i].node];
      }
    }
  }

  /** The node of row `i` is already selected exactly when the row comes earlier
      in the priority order. */
  lemma {:induction false} SelectedRow(s: seq<Scored>, i: nat, m: nat)
    requires OneRowPerNode(s) && i < |s| && m <= |s| == |Priority(s)|
    ensures s[i].node in NodesOf(Priority(s)[..m]) <==> Rank(s, i) < m
  {
    PriorityNoDuplicates(s);
    RankPosition(s, i);
    var p := Priority(s);
    var nodes := NodesOf(p[..m]);
    if Rank(s, i) < m {
      assert nodes[Rank(s, i)] == s[i].node;
    }
    if s[i].node in nodes {
      var j :| 0 <= j < m && nodes[j] == s[i].node;
      assert p[j] in Items(p) && p[j] in Items(s);
      assert p[j] == p[Rank(s, i)];
    }
  }

  /** How many rows of the priority order are covered once the second pass has
      looked at `i` rows. */
  ghost function Covered(s: seq<Scored>, i: nat): int
    requires i <= |s|
  {
    Spread(s, |s|) + i - Spread(s, i)
  }

  lemma {:induction false} CoveredStep(s: seq<Scored>, i: nat)
    requires i < |s|
    ensures IsFirst(s, i) ==> Rank(s, i) < Covered(s, i) == Covered(s, i + 1)
    ensures !IsFirst(s, i) ==> Rank(s, i) == Covered(s, i) == Covered(s, i + 1) - 1
  {
    SpreadStep(s, i);
    SpreadMonotone(s, i + 1, |s|);
    PassLengths(s, i);
  }

  lemma {:induction false} FillStep(s: seq<Scored>, i: nat, m: nat)
    requires OneRowPerNode(s) && i < |s| && m == Covered(s, i) < |s| == |Priority(s)|
    ensures s[i].node in NodesOf(Priority(s)[..m]) ==> Covered(s, i + 1) == m
    ensures s[i].node !in NodesOf(Priority(s)[..m]) ==> Covered(s, i + 1) == m + 1 && Priority(s)[m] == s[i]
  {
    assert s[i].node in NodesOf(Priority(s)[..m]) <==> Rank(s, i) < m by {
      SelectedRow(s, i, m);
    }
    assert 0 <= Rank(s, i) < |s| && Priority(s)[Rank(s, i)] == s[i] by {
      RankPosition(s, i);
    }
    CoveredStep(s, i);
  }

  /** The node has a row. */
  predicate HasRow(s: seq<Scored>, n: Node) {
    exists x <- s :: x.node == n
  }

  ghost predicate Drawn(s: seq<Scored>, first: seq<Node>, result: seq<Node>) {
    forall n <- result :: n in first || HasRow(s, n)
  }

  /** The degraded fallback: the remaining slots are filled by score. */
  method FillPass(s: seq<Scored>, k: nat, first: seq<Node>) returns (result: seq<Node>)
    requires k <= |s| == |Priority(s)|
    requires |first| == Spread(s, |s|) < k && first == NodesOf(Priority(s)[..|first|])
    ensures |result| <= k && Drawn(s, first, result)
    ensures OneRowPerNode(s) ==> result == NodesOf(Priority(s)[..k])
  {
    var selected := set n <- first;
    result := first;
    assert Domains(s, 0) == {};
    for i := 0 to |s|
      invariant |result| <= k && selected == Items(result) && Drawn(s, first, result)
      invariant OneRowPerNode(s) ==> |result| == Covered(s, i) && result == NodesOf(Priority(s)[..|result|])
    {
      if |result| == k {
        return;
      }
      if OneRowPerNode(s) {
        FillStep(s, i, |result|);
      }
      if s[i].node !in selected {
        if OneRowPerNode(s) {
          NodesOfTake(Priority(s), |result|);
        }
        selected := selected + {s[i].node};
        assert HasRow(s, s[i].node);
        result := result + [s[i].node];
      }
    }
  }

  // ---- Placement itself ----

  /** The cluster map lists every node object of positive weight once. */
  predicate DistinctNodes(nodes: seq<Node?>) {
    forall i, j :: 0 <= i < j < |nodes| && nodes[i] != null && nodes[i].weight > 0 ==> nodes[i] != nodes[j]
  }

  lemma {:induction false} RowsDistinct(nodes: seq<Node?>, score: Node -> real)
    requires DistinctNodes(nodes)
    ensures OneRowPerNode(Rows(nodes, score))
  {
    if nodes != [] {
      var n := |nodes| - 1;
      RowsDistinct(nodes[..n], score);
      if nodes[n] != null && nodes[n].weight > 0 {
        assert nodes[n] !in nodes[..n];
      }
    }
  }

  /** The sorted score table satisfies everything the passes rely on. */
  ghost predicate Ranked(s: seq<Scored>) {
    OneRowPerNode(s) && Descending(s) && |Priority(s)| == |s|
  }

  lemma {:induction false} RankedRows(nodes: seq<Node?>, score: Node -> real)
    requires DistinctNodes(nodes)
    ensures Ranked(Sorted(Rows(nodes, score)))
    ensures Items(Sorted(Rows(nodes, score))) == Items(Rows(nodes, score))
    ensures |Sorted(Rows(nodes, score))| == |Rows(nodes, score)|
  {
    var xs := Rows(nodes, score);
    RowsDistinct(nodes, score);
    SortedNoDuplicates(xs);
    SortedFacts(xs);
    PriorityLength(Sorted(xs));
    forall x <- Sorted(xs) ensures x in xs {
      assert x in Items(Sorted(xs));
    }
  }

  /** Without configured domains the priority order is the score order. */
  lemma {:induction false} OneDomain(s: seq<Scored>, j: nat)
    requires 0 < j <= |s| && forall x <- s :: x.node.domain == ""
    ensures Firsts(s, j) == [s[0]] && Others(s, j) == s[1..j]
  {
    if j == 1 {
      assert Domains(s, 0) == {} && Firsts(s, 0) == [] && Others(s, 0) == [];
    } else {
      OneDomain(s, j - 1);
      assert s[0].node.domain in Domains(s, j - 1);
      assert s[1..j] == s[1..j - 1] + [s[j - 1]];
    }
  }

  lemma {:induction false} LegacyOrder(s: seq<Scored>)
    requires forall x <- s :: x.node.domain == ""
    ensures Priority(s) == s
  {
    if s != [] {
      OneDomain(s, |s|);
      assert s == [s[0]] + s[1..];
    }
  }

  /** Placement: `score` is the score function of the object hash. */
  method Placement(nodes: seq<Node?>, score: Node -> real, objectHash: string, replicationFactor: int)
    returns (r: Result<seq<Node>>)
    ensures r.Ok? <==> replicationFactor > 0 && objectHash != "" && exists n <- nodes :: n != null && n.weight > 0
    ensures r.Ok? ==>
              && |r.value| <= Min(replicationFactor, |Rows(nodes, score)|)
              && forall n <- r.value :: n in nodes && n.weight > 0
    ensures r.Ok? && DistinctNodes(nodes) ==> r.value == NodesOf(Selection(nodes, score, replicationFactor))
  {
    if |nodes| == 0 || replicationFactor <= 0 || objectHash == "" {
      return Einval;
    }
    var rows, domainsConfigured := ScoreTable(nodes, score);
    if |rows| == 0 {
      return Einval;
    }
    assert rows[0].node in nodes;
    SortedFacts(rows);
    if DistinctNodes(nodes) {
      RankedRows(nodes, score);
    }
    var s := SortedRows(rows);
    forall x <- s ensures x in rows {
      assert x in multiset(s);
    }
    var k := if replicationFactor > |rows| then |rows| else replicationFactor;
    var result := Select(s, k, domainsConfigured);
    r := Ok(result);
  }

  method SortedRows(rows: seq<Scored>) returns (s: seq<Scored>)
    ensures s == Sorted(rows)
  {
    var scores := new Scored[|rows|](i requires 0 <= i < |rows| => rows[i]);
    assert scores[..] == rows;
    SortStable(scores);
    s := scores[..];
  }

  method Select(s: seq<Scored>, k: nat, domainsConfigured: bool) returns (result: seq<Node>)
    requires k <= |s| && (domainsConfigured || forall x <- s :: x.node.domain == "")
    ensures |result| <= k && forall n <- result :: HasRow(s, n)
    ensures Ranked(s) ==> result == NodesOf(Priority(s)[..k])
  {
    PriorityLength(s);
    PriorityHasRows(s);
    if !domainsConfigured {
      result := TopRows(s, k);
    } else {
      result := DomainPass(s, k);
      if |result| < k {
        result := FillPass(s, k, result);
      }
    }
  }

  lemma {:induction false} PriorityHasRows(s: seq<Scored>)
    ensures forall m :: 0 <= m <= |Priority(s)| ==> forall n <- NodesOf(Priority(s)[..m]) :: HasRow(s, n)
  {
    PassMembers(s, |s|);
    forall m | 0 <= m <= |Priority(s)| ensures forall n <- NodesOf(Priority(s)[..m]) :: HasRow(s, n) {
      var p := Priority(s)[..m];
      forall n <- NodesOf(p) ensures HasRow(s, n) {
        var i :| 0 <= i < |p| && NodesOf(p)[i] == n;
        assert Priority(s)[i] in s;
      }
    }
  }

  method ScoreTable(nodes: seq<Node?>, score: Node -> real) returns (rows: seq<Scored>, domainsConfigured: bool)
    ensures rows == Rows(nodes, score)
    ensures domainsConfigured <==> exists x <- rows :: x.node.domain != ""
  {
    rows, domainsConfigured := [], false;
    for i := 0 to |nodes|
      invariant rows == Rows(nodes[..i], score)
      invariant domainsConfigured <==> exists x <- rows :: x.node.domain != ""
    {
      var node := nodes[i];
      assert nodes[..i + 1][..i] == nodes[..i];
      if node != null && node.weight > 0 {
        ghost var before := rows;
        rows := rows + [Scored(node, score(node))];
        assert rows[|before|].node == node && forall x <- before :: x in rows;
        if node.domain != "" {
          domainsConfigured := true;
        }
      }
    }
    assert nodes[..|nodes|] == nodes;
  }

  /** The legacy selection of clusters without domains: the best `k` scores. */
  method TopRows(s: seq<Scored>, k: nat) returns (result: seq<Node>)
    requires k <= |s| && forall x <- s :: x.node.domain == ""
    ensures |Priority(s)| == |s| && result == NodesOf(Priority(s)[..k])
  {
    result := [];
    LegacyOrder(s);
    for i := 0 to k
      invariant result == NodesOf(s[..i])
    {
      NodesOfTake(s, i);
      result := result + [s[i].node];
    }
  }

  // ---- what Placement promises ----

  /** Placement answers with min(rf, eligible) distinct nodes of positive weight,
      the best-scoring one first; no other choice of that many eligible nodes
      covers more failure domains, and none that covers as many has a greater
      total score. */
  lemma {:induction false} PlacementIsOptimal(nodes: seq<Node?>, score: Node -> real, rf: int, t: set<Scored>)
    requires DistinctNodes(nodes) && rf > 0
    requires t <= Items(Rows(nodes, score)) && |t| == Min(rf, |Rows(nodes, score)|)
    ensures var sel := Selection(nodes, score, rf);
      && |sel| == Min(rf, |Rows(nodes, score)|)
      && NoDuplicates(NodesOf(sel)) && (forall x <- sel :: x in Rows(nodes, score))
      && |DomainSet(t)| <= |DomainSet(Items(sel))|
      && (|DomainSet(t)| == |DomainSet(Items(sel))| ==>
          var s := Sorted(Rows(nodes, score)); Total(s, t, |s|) <= Total(s, Items(sel), |s|))
      && (forall x <- Rows(nodes, score) :: x.value <= sel[0].value)
  {
    var xs := Rows(nodes, score);
    var s := Sorted(xs);
    RankedRows(nodes, score);
    var k := Min(rf, |s|);
    PickedIsOptimal(s, k, t);
    SelectionDistinct(s, k);
    if xs != [] {
      assert xs[0] in xs;
      BestFirst(s);
      forall x <- xs ensures x.value <= s[0].value {
        assert x in Items(s);
      }
    }
  }

  /** The rows taken from the first `j` come from there. */
  lemma {:induction false} PassSources(s: seq<Scored>, j: nat)
    requires j <= |s|
    ensures forall x <- Firsts(s, j) :: x in s[..j] && x.node.domain in Domains(s, j)
    ensures forall x <- Others(s, j) :: x in s[..j]
  {
    if j > 0 {
      PassSources(s, j - 1);
      assert s[..j] == s[..j - 1] + [s[j - 1]];
      SpreadStep(s, j - 1);
    }
  }

  predicate NoSharedDomain(s: seq<Scored>) {
    forall i, j :: 0 <= i < j < |s| ==> s[i].node.domain != s[j].node.domain
  }

  lemma {:induction false} DescendingSnoc(s: seq<Scored>, x: Scored)
    requires Descending(s) && forall y <- s :: y.value >= x.value
    ensures Descending(s + [x])
  {}

  lemma {:induction false} DomainSnoc(s: seq<Scored>, x: Scored)
    requires NoSharedDomain(s) && forall y <- s :: y.node.domain != x.node.domain
    ensures NoSharedDomain(s + [x])
  {}

  lemma {:induction false} ComesLater(s: seq<Scored>, j: nat)
    requires Descending(s) && j < |s|
    ensures forall x <- s[..j] :: x.value >= s[j].value
  {}

  /** Both passes go by score, and the first one takes each domain once. */
  lemma {:induction false} PassesDescend(s: seq<Scored>, j: nat)
    requires Descending(s) && j <= |s|
    ensures Descending(Firsts(s, j)) && Descending(Others(s, j)) && NoSharedDomain(Firsts(s, j))
  {
    if j > 0 {
      PassesDescend(s, j - 1);
      PassSources(s, j - 1);
      ComesLater(s, j - 1);
      if IsFirst(s, j - 1) {
        DescendingSnoc(Firsts(s, j - 1), s[j - 1]);
        DomainSnoc(Firsts(s, j - 1), s[j - 1]);
      } else {
        DescendingSnoc(Others(s, j - 1), s[j - 1]);
      }
    }
  }

  lemma {:induction false} TakeBoth<T>(a: seq<T>, b: seq<T>, k: nat)
    requires k <= |a| + |b|
    ensures var d := Min(k, |a|); 0 <= d <= k && (a + b)[..k][..d] == a[..d] && (a + b)[..k][d..] == b[..k - d]
  {}

  lemma {:induction false} DescendingPrefix(s: seq<Scored>, k: nat)
    requires Descending(s) && k <= |s|
    ensures Descending(s[..k])
  {}

  /** The first `d` rows go by score, each from a domain of its own, and so do the rest
      by score. */
  ghost predicate InPasses(sel: seq<Scored>, d: nat) {
    d <= |sel| && Descending(sel[..d]) && NoSharedDomain(sel[..d]) && Descending(sel[d..])
  }

  lemma {:induction false} PriorityInPasses(s: seq<Scored>, k: nat)
    requires Descending(s) && k <= |s| == |Priority(s)|
    ensures Min(k, Spread(s, |s|)) >= 0 && InPasses(Priority(s)[..k], Min(k, Spread(s, |s|)))
  {
    var a, b := Firsts(s, |s|), Others(s, |s|);
    PassesDescend(s, |s|);
    PassLengths(s, |s|);
    var d := Min(k, |a|);
    TakeBoth(a, b, k);
    DescendingPrefix(a, d);
    DescendingPrefix(b, k - d);
  }

  /** The order of the answer: first nodes of different domains by score, as many as
      there are domains, and then the others by score. */
  lemma {:induction false} PlacementOrder(nodes: seq<Node?>, score: Node -> real, rf: int)
    requires DistinctNodes(nodes) && rf > 0
    ensures var s := Sorted(Rows(nodes, score));
      Min(rf, Spread(s, |s|)) >= 0 && InPasses(Selection(nodes, score, rf), Min(rf, Spread(s, |s|)))
  {
    var s := Sorted(Rows(nodes, score));
    RankedRows(nodes, score);
    PassLengths(s, |s|);
    PriorityInPasses(s, Min(rf, |s|));
  }

  lemma {:induction false} RowsRepeat(nodes: seq<Node?>, score: Node -> real) returns (i: nat, j: nat)
    requires !DistinctNodes(nodes)
    ensures i < j < |Rows(nodes, score)| && Rows(nodes, score)[i].node == Rows(nodes, score)[j].node
  {
    var n := |nodes| - 1;
    var rows := Rows(nodes[..n], score);
    if DistinctNodes(nodes[..n]) {
      var a := Repeated(nodes);
      assert nodes[..n][a] in nodes[..n];
      i :| 0 <= i < |rows| && rows[i] == Scored(nodes[a], score(nodes[a]));
      j := |rows|;
    } else {
      i, j := RowsRepeat(nodes[..n], score);
    }
  }

  lemma {:induction false} Repeated(nodes: seq<Node?>) returns (a: nat)
    requires nodes != [] && !DistinctNodes(nodes) && DistinctNodes(nodes[..|nodes| - 1])
    ensures a < |nodes| - 1 && nodes[a] != null && nodes[a].weight > 0 && nodes[a] == nodes[|nodes| - 1]
  {
    var init := nodes[..|nodes| - 1];
    var b: nat;
    a, b :| a < b < |nodes| && nodes[a] != null && nodes[a].weight > 0 && nodes[a] == nodes[b];
    assert forall i :: 0 <= i < |init| ==> init[i] == nodes[i];
  }

  /** A node listed twice leaves fewer nodes than eligible entries: no answer of
      different nodes has the promised size for every factor. */
  lemma {:induction false} DuplicatesFallShort(nodes: seq<Node?>, score: Node -> real, r: seq<Node>)
    requires !DistinctNodes(nodes) && NoDuplicates(r) && forall n <- r :: n in nodes && n.weight > 0
    ensures |r| < |Rows(nodes, score)|
  {
    var all := NodesOf(Rows(nodes, score));
    var i, j := RowsRepeat(nodes, score);
    assert all[i] == all[j];
    RepeatShrinks(all, i, j);
    forall n <- r ensures n in all {
      var k :| 0 <= k < |Rows(nodes, score)| && Rows(nodes, score)[k] == Scored(n, score(n));
      assert all[k] == n;
    }
    SetSize(r);
    SubsetSize(Items(r), Items(all));
  }

  ghost function Eligible(nodes: seq<Node?>): set<Node> {
    set n: Node | n in nodes && n.weight > 0
  }

  /** There are min(rf, eligible entries) different nodes of positive weight. */
  ghost predicate Satisfiable(nodes: seq<Node?>, score: Node -> real, rf: int) {
    exists t: set<Node> :: t <= Eligible(nodes) && |t| == Min(rf, |Rows(nodes, score)|)
  }

  /** The promised number of different nodes can be had for every factor exactly if no
      node is listed twice, and then Placement answers with that many. */
  lemma {:induction false} SatisfiableExactly(nodes: seq<Node?>, score: Node -> real)
    ensures DistinctNodes(nodes) <==> forall rf: int :: rf > 0 ==> Satisfiable(nodes, score, rf)
    ensures DistinctNodes(nodes) ==> forall rf: int :: rf > 0 ==>
              var r := NodesOf(Selection(nodes, score, rf));
              NoDuplicates(r) && |r| == Min(rf, |Rows(nodes, score)|) && Items(r) <= Eligible(nodes)
  {
    if DistinctNodes(nodes) {
      forall rf: int | rf > 0
        ensures var r := NodesOf(Selection(nodes, score, rf));
                && NoDuplicates(r) && |r| == Min(rf, |Rows(nodes, score)|) && Items(r) <= Eligible(nodes)
                && Satisfiable(nodes, score, rf)
      {
        SelectionSatisfies(nodes, score, rf);
        SetSize(NodesOf(Selection(nodes, score, rf)));
      }
    } else {
      var i, j := RowsRepeat(nodes, score);
      var all := NodesOf(Rows(nodes, score));
      RepeatShrinks(all, i, j);
      EligibleRows(nodes, score);
      forall t: set<Node> | t <= Eligible(nodes) ensures |t| < |all| {
        SubsetSize(t, Items(all));
      }
      assert !Satisfiable(nodes, score, |all|);
    }
  }

  lemma {:induction false} EligibleRows(nodes: seq<Node?>, score: Node -> real)
    ensures Items(NodesOf(Rows(nodes, score))) == Eligible(nodes)
  {
    var rows := Rows(nodes, score);
    forall n: Node ensures n in NodesOf(rows) <==> n in Eligible(nodes) {
      if n in NodesOf(rows) {
        var k :| 0 <= k < |rows| && NodesOf(rows)[k] == n;
        assert rows[k] in rows;
      }
      if n in Eligible(nodes) {
        var k :| 0 <= k < |rows| && rows[k] == Scored(n, score(n));
        assert NodesOf(rows)[k] == n;
      }
    }
  }

  lemma {:induction false} SelectionSatisfies(nodes: seq<Node?>, score: Node -> real, rf: int)
    requires DistinctNodes(nodes) && rf > 0
    ensures var r := NodesOf(Selection(nodes, score, rf));
            NoDuplicates(r) && |r| == Min(rf, |Rows(nodes, score)|) && Items(r) <= Eligible(nodes)
  {
    var sel := Selection(nodes, score, rf);
    RankedRows(nodes, score);
    SelectionDistinct(Sorted(Rows(nodes, score)), Min(rf, |Rows(nodes, score)|));
    forall n <- NodesOf(sel) ensures n in nodes && n.weight > 0 {
      var k :| 0 <= k < |sel| && sel[k].node == n;
      assert sel[k] in Items(Rows(nodes, score));
    }
  }

  lemma {:induction false} SelectionDistinct(s: seq<Scored>, k: nat)
    requires Ranked(s) && k <= |s|
    ensures NoDuplicates(NodesOf(Priority(s)[..k])) && forall x <- Priority(s)[..k] :: x in Items(s)
  {
    PriorityNoDuplicates(s);
    var p := Priority(s);
    forall i | 0 <= i < k ensures p[i] in s {
      assert p[i] in Items(p);
    }
    forall i, j | 0 <= i < j < k ensures p[i].node != p[j].node {
      assert p[i] != p[j];
    }
  }

  lemma {:induction false} BestFirst(s: seq<Scored>)
    requires s != []
    ensures Priority(s) != [] && Priority(s)[0] == s[0]
  {
    assert Domains(s, 0) == {};
    RankPosition(s, 0);
  }

  /** The cluster map without one node. */
  function Dropped(nodes: seq<Node?>, n: Node): (r: seq<Node?>)
    ensures (forall m <- r :: m in nodes && m != n) && (forall m <- nodes :: m != n ==> m in r)
  {
    if nodes == [] then []
    else
      var last := nodes[|nodes| - 1];
      var init := Dropped(nodes[..|nodes| - 1], n);
      assert nodes == nodes[..|nodes| - 1] + [last];
      if last == n then init else init + [last]
  }

  lemma {:induction false} DroppedDistinct(nodes: seq<Node?>, n: Node)
    requires DistinctNodes(nodes)
    ensures DistinctNodes(Dropped(nodes, n))
  {
    if nodes != [] {
      var k := |nodes| - 1;
      DroppedDistinct(nodes[..k], n);
      assert nodes[k] == null || nodes[k].weight <= 0 || nodes[k] !in nodes[..k];
    }
  }

  lemma {:induction false} RowsDropped(nodes: seq<Node?>, n: Node, score: Node -> real)
    ensures Rows(Dropped(nodes, n), score) == Without(Rows(nodes, score), Scored(n, score(n)))
  {
    if nodes != [] {
      var k := |nodes| - 1;
      RowsDropped(nodes[..k], n, score);
      var init := Dropped(nodes[..k], n);
      assert (init + [nodes[k]])[..|init|] == init;
      var rows := Rows(nodes[..k], score);
      if nodes[k] != null && nodes[k].weight > 0 {
        assert (rows + [Scored(nodes[k], score(nodes[k]))])[..|rows|] == rows;
      }
    }
  }

  lemma {:induction false} WithoutExtends(s: seq<Scored>, x: Scored) returns (p: nat)
    requires NoDuplicates(s) && x in s
    ensures Extends(s, Without(s, x), p, x)
  {
    var n := |s| - 1;
    assert s == s[..n] + [s[n]];
    if s[n] == x {
      p := n;
      AbsentStays(s[..n], x);
    } else {
      p := WithoutExtends(s[..n], x);
    }
  }

  lemma {:induction false} AbsentStays(s: seq<Scored>, x: Scored)
    requires x !in s
    ensures Without(s, x) == s
  {
    if s != [] {
      AbsentStays(s[..|s| - 1], x);
      assert s == s[..|s| - 1] + [s[|s| - 1]];
    }
  }

  /** The rows selected from `s`, `rf` of them at most. */
  ghost function Chosen(s: seq<Scored>, rf: nat): seq<Scored>
    requires |Priority(s)| == |s|
  {
    Priority(s)[..Min(rf, |s|)]
  }

  /** One row more: at most one selected row gives way, to that row; and if it
      is not selected nothing changes. */
  lemma {:induction false} OneRowMore(big: seq<Scored>, s: seq<Scored>, p: nat, x: Scored, rf: nat)
    requires Extends(big, s, p, x) && NoDuplicates(big)
    ensures |Priority(s)| == |s| && |Priority(big)| == |big|
    ensures Items(Chosen(big, rf)) - {x} <= Items(Chosen(s, rf))
    ensures |Items(Chosen(s, rf)) - Items(Chosen(big, rf))| <= 1
    ensures x !in Chosen(big, rf) ==> Chosen(big, rf) == Chosen(s, rf)
  {
    ExtendedNoDuplicates(big, s, p, x);
    PriorityNoDuplicates(s);
    PriorityNoDuplicates(big);
    var now, was := Chosen(big, rf), Chosen(s, rf);
    if rf <= |s| {
      PickedShrinks(big, s, p, x, rf);
      if x !in Picked(big, rf) {
        UnpickedIrrelevant(big, s, p, x, rf);
      }
    } else {
      assert now == Priority(big) && was == Priority(s);
    }
    SetSize(now);
    SetSize(was);
    LostBound(Items(now), Items(was), x);
  }

  lemma {:induction false} LostBound<T>(now: set<T>, was: set<T>, x: T)
    requires now - {x} <= was && |was| <= |now|
    ensures |was - now| <= 1
  {
    SubsetSize(now - {x}, was);
    assert was == (was - now) + (was * now);
    SubsetSize(now - {x}, was * now);
  }

  /** Taking one node out of the cluster map, or read backwards adding one:
      every other node placed with it is placed without it, at most one node is
      newly placed without it, and if it held nothing the whole answer, order
      included, stays the same. */
  lemma {:induction false} MinimalMovement(nodes: seq<Node?>, n: Node, score: Node -> real, rf: int)
    requires DistinctNodes(nodes) && n in nodes && rf > 0
    ensures var with, without := NodesOf(Selection(nodes, score, rf)), NodesOf(Selection(Dropped(nodes, n), score, rf));
      && (forall m <- with :: m != n ==> m in without)
      && (forall a <- without, b <- without :: a !in with && b !in with ==> a == b)
      && (n !in with ==> with == without)
  {
    var xs, x := Rows(nodes, score), Scored(n, score(n));
    RowsDropped(nodes, n, score);
    SortedWithout(xs, x);
    RankedRows(nodes, score);
    DroppedDistinct(nodes, n);
    RankedRows(Dropped(nodes, n), score);
    var big := Sorted(xs);
    if n.weight > 0 {
      assert x in Items(big);
      var p := WithoutExtends(big, x);
      OneRowMore(big, Without(big, x), p, x, rf);
      NodesMove(big, Without(big, x), x, rf);
    } else {
      AbsentStays(xs, x);
    }
  }

  lemma {:induction false} NodesMove(big: seq<Scored>, s: seq<Scored>, x: Scored, rf: nat)
    requires Ranked(big) && Ranked(s) && x in big
    requires Items(Chosen(big, rf)) - {x} <= Items(Chosen(s, rf))
    requires |Items(Chosen(s, rf)) - Items(Chosen(big, rf))| <= 1
    requires x !in Chosen(big, rf) ==> Chosen(big, rf) == Chosen(s, rf)
    ensures var with, without := NodesOf(Chosen(big, rf)), NodesOf(Chosen(s, rf));
      && (forall m <- with :: m != x.node ==> m in without)
      && (forall a <- without, b <- without :: a !in with && b !in with ==> a == b)
      && (x.node !in with ==> with == without)
  {
    var now, was := Chosen(big, rf), Chosen(s, rf);
    var with, without := NodesOf(now), NodesOf(was);
    forall i | 0 <= i < |with| && with[i] != x.node ensures with[i] in without {
      assert now[i] in Items(now) - {x};
      var j :| 0 <= j < |was| && was[j] == now[i];
      assert without[j] == with[i];
    }
    forall i, j | 0 <= i < |without| && 0 <= j < |without| && without[i] !in with && without[j] !in with
      ensures without[i] == without[j]
    {
      RowLost(now, was[i]);
      RowLost(now, was[j]);
      PairBound(Items(was) - Items(now), was[i], was[j]);
    }
    if x.node !in with {
      RowLost(now, x);
    }
  }

  lemma {:induction false} RowLost(now: seq<Scored>, y: Scored)
    requires y.node !in NodesOf(now)
    ensures forall i :: 0 <= i < |now| ==> now[i] != y
  {}

  lemma {:induction false} PairBound<T>(u: set<T>, a: T, b: T)
    requires |u| <= 1 && a in u && b in u
    ensures a == b
  {
    SubsetSize({a, b}, u);
  }
}
