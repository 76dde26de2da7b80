/** The byte order of strings. */
module Strings {

  predicate Less(s: string, t: string) {
    t != [] && (s == [] || s[0] < t[0] || (s[0] == t[0] && Less(s[1..], t[1..])))
  }

  lemma {:induction false} LessIrreflexive(s: string)
    ensures !Less(s, s)
  {
    if s != [] {
      LessIrreflexive(s[1..]);
    }
  }

  lemma {:induction false} LessTransitive(s: string, t: string, u: string)
    requires Less(s, t) && Less(t, u)
    ensures Less(s, u)
  {
    if s != [] && s[0] == t[0] && t[0] == u[0] {
      LessTransitive(s[1..], t[1..], u[1..]);
    }
  }

  lemma {:induction false} LessTotal(s: string, t: string)
    ensures s == t || Less(s, t) || Less(t, s)
  {
    if s != [] && t != [] && s[0] == t[0] {
      LessTotal(s[1..], t[1..]);
      if s[1..] == t[1..] {
        assert s == [s[0]] + s[1..] && t == [t[0]] + t[1..];
      }
    }
  }

  /** A prefix does not sort behind what it begins. */
  lemma {:induction false} PrefixFirst(p: string, s: string)
    requires p <= s
    ensures !Less(s, p)
  {
    if p != [] {
      PrefixFirst(p[1..], s[1..]);
    }
  }

  /** The strings with a given prefix are neighbours in the order. */
  lemma {:induction false} PrefixConvex(p: string, s: string, t: string)
    requires p <= t && !Less(s, p) && !Less(t, s)
    ensures p <= s
  {
    if p != [] {
      PrefixConvex(p[1..], s[1..], t[1..]);
      assert p == [p[0]] + p[1..] && s == [s[0]] + s[1..];
    }
  }

  /** The first difference decides, and a proper prefix comes first. */
  lemma {:induction false} LessExactly(s: string, t: string) returns (n: nat)
    ensures n <= |s| && n <= |t| && s[..n] == t[..n] && (n < |s| && n < |t| ==> s[n] != t[n])
    ensures Less(s, t) <==> if n < |s| && n < |t| then s[n] < t[n] else |s| < |t|
  {
    if s == [] || t == [] || s[0] != t[0] {
      n := 0;
    } else {
      var m := LessExactly(s[1..], t[1..]);
      n := m + 1;
      assert s[..n] == [s[0]] + s[1..][..m] && t[..n] == [t[0]] + t[1..][..m];
      assert n < |s| ==> s[n] == s[1..][m];
      assert n < |t| ==> t[n] == t[1..][m];
    }
  }

  /** The first difference decides. */
  lemma {:induction false} LessAt(s: string, t: string, n: nat)
    requires n < |s| && n < |t| && s[..n] == t[..n] && s[n] < t[n]
    ensures Less(s, t)
  {
    if n > 0 {
      assert s[0] == s[..n][0] == t[..n][0] == t[0];
      assert s[1..][..n - 1] == s[..n][1..] && t[1..][..n - 1] == t[..n][1..];
      LessAt(s[1..], t[1..], n - 1);
    }
  }
}
