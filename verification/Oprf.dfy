module Oprf {

  // The threshold oblivious PRF used for confidential deduplication.
  //
  // Scalars are the elements of a field and group elements the elements of a module
  // over it, both given by an arbitrary `Suite` of operations that obeys the usual
  // laws; encodings are functions of the suite that decode to what was encoded.

  type Bytes = seq<bv8>

  datatype Option<+T> = None | Some(value: T)

  /** The scalars of the group library: operations given by their tables of values. */
  datatype Field<!S(==)> = Field(
    zero: S, one: S, sum: imap<(S, S), S>, product: imap<(S, S), S>, negative: imap<S, S>, inverse: imap<S, S>)
  {
    function Add(a: S, b: S): S { if (a, b) in sum then sum[(a, b)] else zero }
    function Mul(a: S, b: S): S { if (a, b) in product then product[(a, b)] else zero }
    function Neg(a: S): S { if a in negative then negative[a] else zero }
    function Inv(a: S): S { if a in inverse then inverse[a] else zero }
    function Sub(a: S, b: S): S { Add(a, Neg(b)) }
  }

  /** Marks the arguments at which a law is to be used. */
  ghost predicate At<A, B, C>(a: A, b: B, c: C) { true }

  /** The scalars form a field; zero is its own "inverse". */
  ghost predicate IsField<S(!new)>(g: Field<S>) {
    && (forall k :: k in g.sum) && (forall k :: k in g.product)
    && (forall a :: a in g.negative) && (forall a :: a in g.inverse)
    && g.one != g.zero && g.Inv(g.zero) == g.zero
    && (forall a, b, c {:trigger At(a, b, c)} ::
          && g.Add(g.Add(a, b), c) == g.Add(a, g.Add(b, c)) && g.Add(a, b) == g.Add(b, a)
          && g.Add(a, g.zero) == a && g.Add(a, g.Neg(a)) == g.zero)
    && (forall a, b, c {:trigger At(a, b, c)} ::
          && g.Mul(g.Mul(a, b), c) == g.Mul(a, g.Mul(b, c)) && g.Mul(a, b) == g.Mul(b, a)
          && g.Mul(a, g.one) == a && g.Mul(a, g.Add(b, c)) == g.Add(g.Mul(a, b), g.Mul(a, c))
          && (a != g.zero ==> g.Mul(a, g.Inv(a)) == g.one))
  }

  // ---- field algebra ----

  lemma {:induction false} AddRules<S(!new)>(g: Field<S>, a: S, b: S, c: S)
    requires IsField(g)
    ensures g.Add(g.Add(a, b), c) == g.Add(a, g.Add(b, c)) && g.Add(a, b) == g.Add(b, a)
    ensures g.Add(a, g.zero) == a && g.Add(a, g.Neg(a)) == g.zero
  {
    assert At(a, b, c);
  }

  lemma {:induction false} MulRules<S(!new)>(g: Field<S>, a: S, b: S, c: S)
    requires IsField(g)
    ensures g.Mul(g.Mul(a, b), c) == g.Mul(a, g.Mul(b, c)) && g.Mul(a, b) == g.Mul(b, a)
    ensures g.Mul(a, g.one) == a && g.Mul(a, g.Add(b, c)) == g.Add(g.Mul(a, b), g.Mul(a, c))
    ensures a != g.zero ==> g.Mul(a, g.Inv(a)) == g.one
  {
    assert At(a, b, c);
  }

  /** `x + a == y + a` only when `x == y`. */
  lemma {:induction false} AddCancel<S(!new)>(g: Field<S>, x: S, y: S, a: S)
    requires IsField(g) && g.Add(x, a) == g.Add(y, a)
    ensures x == y
  {
    AddRules(g, x, a, g.Neg(a));
    AddRules(g, y, a, g.Neg(a));
    AddRules(g, a, a, a);
  }

  lemma {:induction false} MulZero<S(!new)>(g: Field<S>, a: S)
    requires IsField(g)
    ensures g.Mul(a, g.zero) == g.zero && g.Mul(g.zero, a) == g.zero
  {
    var az := g.Mul(a, g.zero);
    MulRules(g, a, g.zero, g.zero);
    AddRules(g, g.zero, g.zero, g.zero);
    AddRules(g, az, az, az);
    AddRules(g, g.zero, az, az);
    AddCancel(g, az, g.zero, az);
  }

  /** `a * (b - c) == a * b - a * c`. */
  lemma {:induction false} MulSub<S(!new)>(g: Field<S>, a: S, b: S, c: S)
    requires IsField(g)
    ensures g.Mul(a, g.Sub(b, c)) == g.Sub(g.Mul(a, b), g.Mul(a, c))
  {
    var ac := g.Mul(a, c);
    MulRules(g, a, b, g.Neg(c));
    MulRules(g, a, g.Neg(c), c);
    AddRules(g, c, g.Neg(c), c);
    AddRules(g, g.Neg(c), c, c);
    MulZero(g, a);
    AddRules(g, ac, g.Neg(ac), ac);
    AddRules(g, g.Neg(ac), ac, ac);
    AddCancel(g, g.Mul(a, g.Neg(c)), g.Neg(ac), ac);
  }

  /** `a - b == 0` only when `a == b`. */
  lemma {:induction false} SubZero<S(!new)>(g: Field<S>, a: S, b: S)
    requires IsField(g)
    ensures g.Sub(a, b) == g.zero <==> a == b
    ensures g.Add(g.Sub(a, b), b) == a
  {
    AddRules(g, a, g.Neg(b), b);
    AddRules(g, b, g.Neg(b), b);
    AddRules(g, g.Neg(b), b, b);
    AddRules(g, a, b, b);
    AddRules(g, g.zero, b, b);
    AddRules(g, b, g.zero, b);
  }

  lemma {:induction false} MulCancel<S(!new)>(g: Field<S>, a: S, x: S, y: S)
    requires IsField(g) && a != g.zero && g.Mul(x, a) == g.Mul(y, a)
    ensures x == y
  {
    MulRules(g, x, a, g.Inv(a));
    MulRules(g, y, a, g.Inv(a));
    MulRules(g, a, a, a);
  }

  lemma {:induction false} NonZeroProduct<S(!new)>(g: Field<S>, a: S, b: S)
    requires IsField(g)
    ensures g.Mul(a, b) != g.zero <==> a != g.zero && b != g.zero
  {
    MulZero(g, a);
    MulZero(g, b);
    if a != g.zero && b != g.zero && g.Mul(a, b) == g.zero {
      MulCancel(g, b, a, g.zero);
    }
  }

  // ---- Shamir sharing and Lagrange interpolation at zero ----

  /** The polynomial with coefficients `c[j..]` (constant term first) at `x`. */
  function Eval<S(==)>(g: Field<S>, c: seq<S>, j: nat, x: S): S
    requires j <= |c|
    decreases |c| - j
  {
    if j == |c| then g.zero else g.Add(c[j], g.Mul(x, Eval(g, c, j + 1, x)))
  }

  /** The product of the points `m..n` except the one at `i`. */
  function Num<S(==)>(g: Field<S>, xs: seq<S>, i: nat, m: nat, n: nat): S
    requires m <= n <= |xs|
  {
    if n == m then g.one
    else if n - 1 == i then Num(g, xs, i, m, n - 1)
    else g.Mul(Num(g, xs, i, m, n - 1), xs[n - 1])
  }

  /** The product of the differences of the points `m..n` to the one at `i`. */
  function Den<S(==)>(g: Field<S>, xs: seq<S>, i: nat, m: nat, n: nat): S
    requires m <= n <= |xs| && i < |xs|
  {
    if n == m then g.one
    else if n - 1 == i then Den(g, xs, i, m, n - 1)
    else g.Mul(Den(g, xs, i, m, n - 1), g.Sub(xs[n - 1], xs[i]))
  }

  /** The Lagrange coefficient at zero of point `i` among the points `m..n`. */
  function Lagrange<S(==)>(g: Field<S>, xs: seq<S>, i: nat, m: nat, n: nat): S
    requires m <= n <= |xs| && i < |xs|
  {
    g.Mul(Num(g, xs, i, m, n), g.Inv(Den(g, xs, i, m, n)))
  }

  ghost predicate CoeffAt<S(!new)>(g: Field<S>, xs: seq<S>, ls: seq<S>, i: int, m: nat, n: nat)
    requires m <= n <= |xs|
  {
    0 <= i < |xs| && i < |ls| ==> ls[i] == Lagrange(g, xs, i, m, n)
  }

  /** The first `k` of the coefficients of the points `m..n`. */
  function Coeffs<S(==, !new)>(g: Field<S>, xs: seq<S>, m: nat, n: nat, k: nat): (ls: seq<S>)
    requires m <= n <= |xs| && k <= |xs|
    ensures |ls| == k
    ensures forall i {:trigger CoeffAt(g, xs, ls, i, m, n)} :: CoeffAt(g, xs, ls, i, m, n)
  {
    if k == 0 then [] else
      var before := Coeffs(g, xs, m, n, k - 1);
      assert forall i {:trigger CoeffAt(g, xs, before, i, m, n)} :: CoeffAt(g, xs, before, i, m, n);
      var ls := before + [Lagrange(g, xs, k - 1, m, n)];
      assert forall i {:trigger CoeffAt(g, xs, ls, i, m, n)} :: CoeffAt(g, xs, before, i, m, n) ==>
          CoeffAt(g, xs, ls, i, m, n);
      ls
  }

  /** The sum of the products `ls[i] * ys[i]` for `m <= i < k`. */
  function Dot<S(==)>(g: Field<S>, ls: seq<S>, ys: seq<S>, m: nat, k: nat): S
    requires m <= k <= |ls| == |ys|
  {
    if k == m then g.zero else g.Add(Dot(g, ls, ys, m, k - 1), g.Mul(ls[k - 1], ys[k - 1]))
  }

  /** The interpolation at zero of the values `ys` over the points `m..n`. */
  function Interpolate<S(==, !new)>(g: Field<S>, xs: seq<S>, ys: seq<S>, m: nat, n: nat): S
    requires m <= n <= |xs| == |ys|
  {
    Dot(g, Coeffs(g, xs, m, n, |xs|), ys, m, n)
  }

  predicate Differ<T(==)>(xs: seq<T>, i: int, j: int) {
    0 <= i < |xs| && 0 <= j < |xs| && i != j ==> xs[i] != xs[j]
  }

  ghost predicate Distinct<T>(xs: seq<T>) {
    forall i, j {:trigger Differ(xs, i, j)} :: Differ(xs, i, j)
  }

  lemma {:induction false} DenNonZero<S(!new)>(g: Field<S>, xs: seq<S>, i: nat, m: nat, n: nat)
    requires IsField(g) && Distinct(xs) && m <= n <= |xs| && i < |xs|
    ensures Den(g, xs, i, m, n) != g.zero
  {
    if n > m {
      DenNonZero(g, xs, i, m, n - 1);
      if n - 1 != i {
        assert Differ(xs, n - 1, i);
        SubZero(g, xs[n - 1], xs[i]);
        NonZeroProduct(g, Den(g, xs, i, m, n - 1), g.Sub(xs[n - 1], xs[i]));
      }
    }
  }

  /** The coefficient times its denominator is its numerator. */
  lemma {:induction false} LagrangeDen<S(!new)>(g: Field<S>, xs: seq<S>, i: nat, m: nat, n: nat)
    requires IsField(g) && Distinct(xs) && m <= n <= |xs| && i < |xs|
    ensures g.Mul(Lagrange(g, xs, i, m, n), Den(g, xs, i, m, n)) == Num(g, xs, i, m, n)
  {
    var nu, d := Num(g, xs, i, m, n), Den(g, xs, i, m, n);
    DenNonZero(g, xs, i, m, n);
    MulRules(g, nu, g.Inv(d), d);
    MulRules(g, d, g.Inv(d), d);
    MulRules(g, nu, nu, nu);
  }

  /** Splitting the first point off the products. */
  lemma {:induction false} SplitFirst<S(!new)>(g: Field<S>, xs: seq<S>, i: nat, m: nat, n: nat)
    requires IsField(g) && m < n <= |xs| && m < i < |xs|
    ensures Num(g, xs, i, m, n) == g.Mul(Num(g, xs, i, m + 1, n), xs[m])
    ensures Den(g, xs, i, m, n) == g.Mul(Den(g, xs, i, m + 1, n), g.Sub(xs[m], xs[i]))
  {
    if n > m + 1 {
      SplitFirst(g, xs, i, m, n - 1);
      if n - 1 != i {
        Swap(g, Num(g, xs, i, m + 1, n - 1), xs[m], xs[n - 1]);
        Swap(g, Den(g, xs, i, m + 1, n - 1), g.Sub(xs[m], xs[i]), g.Sub(xs[n - 1], xs[i]));
      }
    }
  }

  lemma {:induction false} Swap<S(!new)>(g: Field<S>, a: S, b: S, c: S)
    requires IsField(g)
    ensures g.Mul(g.Mul(a, b), c) == g.Mul(g.Mul(a, c), b)
  {
    MulRules(g, a, b, c);
    MulRules(g, a, c, b);
    MulRules(g, b, c, a);
  }

  /** If `l * (d * w) == n * x` and `m * d == n` then `l * w == m * x`. */
  lemma {:induction false} Quotient<S(!new)>(g: Field<S>, l: S, m: S, n: S, d: S, w: S, x: S)
    requires IsField(g) && d != g.zero
    requires g.Mul(l, g.Mul(d, w)) == g.Mul(n, x) && g.Mul(m, d) == n
    ensures g.Mul(l, w) == g.Mul(m, x)
  {
    MulRules(g, d, w, w);
    MulRules(g, l, w, d);
    Swap(g, m, d, x);
    MulCancel(g, d, g.Mul(l, w), g.Mul(m, x));
  }

  /** Dropping the last point: `L_i * (x_n - x_i) == L'_i * x_n`. */
  lemma {:induction false} DropLast<S(!new)>(g: Field<S>, xs: seq<S>, i: nat, m: nat, n: nat)
    requires IsField(g) && Distinct(xs) && m <= i < n < |xs|
    ensures g.Mul(Lagrange(g, xs, i, m, n + 1), g.Sub(xs[n], xs[i])) == g.Mul(Lagrange(g, xs, i, m, n), xs[n])
  {
    LagrangeDen(g, xs, i, m, n + 1);
    LagrangeDen(g, xs, i, m, n);
    DenNonZero(g, xs, i, m, n);
    Quotient(g, Lagrange(g, xs, i, m, n + 1), Lagrange(g, xs, i, m, n), Num(g, xs, i, m, n), Den(g, xs, i, m, n),
        g.Sub(xs[n], xs[i]), xs[n]);
  }

  /** Dropping the first point: `L_i * (x_m - x_i) == L'_i * x_m`. */
  lemma {:induction false} DropFirst<S(!new)>(g: Field<S>, xs: seq<S>, i: nat, m: nat, n: nat)
    requires IsField(g) && Distinct(xs) && m < i < n <= |xs|
    ensures g.Mul(Lagrange(g, xs, i, m, n), g.Sub(xs[m], xs[i])) == g.Mul(Lagrange(g, xs, i, m + 1, n), xs[m])
  {
    SplitFirst(g, xs, i, m, n);
    LagrangeDen(g, xs, i, m, n);
    LagrangeDen(g, xs, i, m + 1, n);
    DenNonZero(g, xs, i, m + 1, n);
    Quotient(g, Lagrange(g, xs, i, m, n), Lagrange(g, xs, i, m + 1, n), Num(g, xs, i, m + 1, n),
        Den(g, xs, i, m + 1, n), g.Sub(xs[m], xs[i]), xs[m]);
  }

  /** `ys` is `a * us + b * vs`, value by value. */
  ghost predicate Combines<S>(g: Field<S>, ys: seq<S>, a: S, us: seq<S>, b: S, vs: seq<S>) {
    && |ys| == |us| == |vs|
    && forall i :: 0 <= i < |ys| ==> ys[i] == g.Add(g.Mul(a, us[i]), g.Mul(b, vs[i]))
  }

  /** The sum is linear in the values. */
  lemma {:induction false} Linear<S(!new)>(g: Field<S>, ls: seq<S>, ys: seq<S>, a: S, us: seq<S>, b: S, vs: seq<S>,
                                           m: nat, k: nat)
    requires IsField(g) && m <= k <= |ls| == |ys| && Combines(g, ys, a, us, b, vs)
    ensures Dot(g, ls, ys, m, k) == g.Add(g.Mul(a, Dot(g, ls, us, m, k)), g.Mul(b, Dot(g, ls, vs, m, k)))
  {
    if k == m {
      MulZero(g, a);
      MulZero(g, b);
      AddRules(g, g.zero, g.zero, g.zero);
    } else {
      Linear(g, ls, ys, a, us, b, vs, m, k - 1);
      var l, u, v := ls[k - 1], us[k - 1], vs[k - 1];
      var su, sv := Dot(g, ls, us, m, k - 1), Dot(g, ls, vs, m, k - 1);
      MulRules(g, l, g.Mul(a, u), g.Mul(b, v));
      Rotate(g, l, a, u);
      Rotate(g, l, b, v);
      MulRules(g, a, su, g.Mul(l, u));
      MulRules(g, b, sv, g.Mul(l, v));
      Exchange(g, g.Mul(a, su), g.Mul(b, sv), g.Mul(a, g.Mul(l, u)), g.Mul(b, g.Mul(l, v)));
    }
  }

  lemma {:induction false} Rotate<S(!new)>(g: Field<S>, l: S, a: S, u: S)
    requires IsField(g)
    ensures g.Mul(l, g.Mul(a, u)) == g.Mul(a, g.Mul(l, u))
  {
    MulRules(g, l, a, u);
    MulRules(g, a, l, u);
  }

  lemma {:induction false} Exchange<S(!new)>(g: Field<S>, p: S, q: S, r: S, s: S)
    requires IsField(g)
    ensures g.Add(g.Add(p, q), g.Add(r, s)) == g.Add(g.Add(p, r), g.Add(q, s))
  {
    AddRules(g, p, q, g.Add(r, s));
    AddRules(g, q, r, s);
    AddRules(g, q, r, r);
    AddRules(g, r, q, s);
    AddRules(g, p, r, g.Add(q, s));
  }

  /** The values `(x - x_i) * gs_i`. */
  function Weighted<S(==)>(g: Field<S>, x: S, xs: seq<S>, gs: seq<S>, k: nat): (us: seq<S>)
    requires k <= |xs| == |gs|
    ensures |us| == k && forall i :: 0 <= i < k ==> us[i] == g.Mul(g.Sub(x, xs[i]), gs[i])
  {
    if k == 0 then [] else Weighted(g, x, xs, gs, k - 1) + [g.Mul(g.Sub(x, xs[k - 1]), gs[k - 1])]
  }

  /** The values `x_i * gs_i`. */
  function Products<S(==)>(g: Field<S>, xs: seq<S>, gs: seq<S>, k: nat): (zs: seq<S>)
    requires k <= |xs| == |gs|
    ensures |zs| == k && forall i :: 0 <= i < k ==> zs[i] == g.Mul(xs[i], gs[i])
  {
    if k == 0 then [] else Products(g, xs, gs, k - 1) + [g.Mul(xs[k - 1], gs[k - 1])]
  }

  /** With `ls_i * (x - x_i) == ks_i * x` for every term, weighting the values
      by the distance to `x` turns the sum with `ls` into the one with `ks`. */
  lemma {:induction false} SumDrop<S(!new)>(g: Field<S>, ls: seq<S>, ks: seq<S>, x: S, xs: seq<S>, gs: seq<S>, m: nat,
                                            k: nat)
    requires IsField(g) && |xs| == |gs| == |ls| == |ks| && m <= k <= |xs|
    requires forall i :: m <= i < k ==> g.Mul(ls[i], g.Sub(x, xs[i])) == g.Mul(ks[i], x)
    ensures Dot(g, ls, Weighted(g, x, xs, gs, |xs|), m, k) == g.Mul(x, Dot(g, ks, gs, m, k))
  {
    if k == m {
      MulZero(g, x);
    } else {
      SumDrop(g, ls, ks, x, xs, gs, m, k - 1);
      WeightedTerm(g, ls[k - 1], g.Sub(x, xs[k - 1]), gs[k - 1], ks[k - 1], x, Dot(g, ks, gs, m, k - 1));
    }
  }

  /** Weighting by the distance to the last point drops it. */
  lemma {:induction false} SumDropLast<S(!new)>(g: Field<S>, xs: seq<S>, gs: seq<S>, m: nat, n: nat)
    requires IsField(g) && Distinct(xs) && |xs| == |gs| && m <= n < |xs|
    ensures Interpolate(g, xs, Weighted(g, xs[n], xs, gs, |xs|), m, n + 1) == g.Mul(xs[n], Interpolate(g, xs, gs, m, n))
  {
    var ls, ks := Coeffs(g, xs, m, n + 1, |xs|), Coeffs(g, xs, m, n, |xs|);
    forall i | m <= i < n ensures g.Mul(ls[i], g.Sub(xs[n], xs[i])) == g.Mul(ks[i], xs[n]) {
      assert CoeffAt(g, xs, ls, i, m, n + 1) && CoeffAt(g, xs, ks, i, m, n);
      DropLast(g, xs, i, m, n);
    }
    SumDrop(g, ls, ks, xs[n], xs, gs, m, n);
    VanishingTerm(g, ls[n], xs[n], gs[n]);
    AddRules(g, g.Mul(xs[n], Dot(g, ks, gs, m, n)), g.zero, g.zero);
  }

  /** The first term of a sum split off. */
  lemma {:induction false} DotFirst<S(!new)>(g: Field<S>, ls: seq<S>, ys: seq<S>, m: nat, k: nat)
    requires IsField(g) && m < k <= |ls| == |ys| && g.Mul(ls[m], ys[m]) == g.zero
    ensures Dot(g, ls, ys, m, k) == Dot(g, ls, ys, m + 1, k)
  {
    if k == m + 1 {
      assert Dot(g, ls, ys, m, m) == g.zero;
      AddRules(g, g.zero, g.zero, g.zero);
    } else {
      DotFirst(g, ls, ys, m, k - 1);
    }
  }

  /** Weighting by the distance to the first point drops it. */
  lemma {:induction false} SumDropFirst<S(!new)>(g: Field<S>, xs: seq<S>, gs: seq<S>, m: nat, n: nat)
    requires IsField(g) && Distinct(xs) && |xs| == |gs| && m < n <= |xs|
    ensures Interpolate(g, xs, Weighted(g, xs[m], xs, gs, |xs|), m, n) == g.Mul(xs[m], Interpolate(g, xs, gs, m + 1, n))
  {
    var ls, ks := Coeffs(g, xs, m, n, |xs|), Coeffs(g, xs, m + 1, n, |xs|);
    forall i | m + 1 <= i < n ensures g.Mul(ls[i], g.Sub(xs[m], xs[i])) == g.Mul(ks[i], xs[m]) {
      assert CoeffAt(g, xs, ls, i, m, n) && CoeffAt(g, xs, ks, i, m + 1, n);
      DropFirst(g, xs, i, m, n);
    }
    SumDrop(g, ls, ks, xs[m], xs, gs, m + 1, n);
    VanishingTerm(g, ls[m], xs[m], gs[m]);
    DotFirst(g, ls, Weighted(g, xs[m], xs, gs, |xs|), m, n);
  }

  /** One more term: with `l * w == m * x`, `x * sum + l * (w * v) == x * (sum + m * v)`. */
  lemma {:induction false} WeightedTerm<S(!new)>(g: Field<S>, l: S, w: S, v: S, m: S, x: S, sum: S)
    requires IsField(g) && g.Mul(l, w) == g.Mul(m, x)
    ensures g.Add(g.Mul(x, sum), g.Mul(l, g.Mul(w, v))) == g.Mul(x, g.Add(sum, g.Mul(m, v)))
  {
    MulRules(g, l, w, v);
    MulRules(g, m, x, v);
    MulRules(g, x, m, v);
    MulRules(g, x, sum, g.Mul(m, v));
  }

  lemma {:induction false} VanishingTerm<S(!new)>(g: Field<S>, l: S, x: S, v: S)
    requires IsField(g)
    ensures g.Mul(l, g.Mul(g.Sub(x, x), v)) == g.zero
  {
    SubZero(g, x, x);
    MulZero(g, v);
    MulZero(g, l);
  }

  /** The weighted values are a linear combination, so their interpolation is. */
  lemma {:induction false} SumWeighted<S(!new)>(g: Field<S>, x: S, xs: seq<S>, gs: seq<S>, m: nat, n: nat)
    requires IsField(g) && |xs| == |gs| && m <= n <= |xs|
    ensures Interpolate(g, xs, Weighted(g, x, xs, gs, |xs|), m, n) ==
            g.Sub(g.Mul(x, Interpolate(g, xs, gs, m, n)), Interpolate(g, xs, Products(g, xs, gs, |xs|), m, n))
  {
    var us, zs, m1, ls := Weighted(g, x, xs, gs, |xs|), Products(g, xs, gs, |xs|), g.Neg(g.one),
        Coeffs(g, xs, m, n, |xs|);
    forall i | 0 <= i < |xs| ensures us[i] == g.Add(g.Mul(x, gs[i]), g.Mul(m1, zs[i])) {
      MulRules(g, g.Sub(x, xs[i]), gs[i], gs[i]);
      MulSub(g, gs[i], x, xs[i]);
      MulRules(g, gs[i], x, x);
      MulRules(g, gs[i], xs[i], x);
      NegOne(g, zs[i]);
    }
    assert Combines(g, us, x, gs, m1, zs);
    Linear(g, ls, us, x, gs, m1, zs, m, n);
    NegOne(g, Dot(g, ls, zs, m, n));
  }

  lemma {:induction false} NegOne<S(!new)>(g: Field<S>, z: S)
    requires IsField(g)
    ensures g.Mul(g.Neg(g.one), z) == g.Neg(z)
  {
    var m := g.Mul(g.Neg(g.one), z);
    MulRules(g, z, g.Neg(g.one), g.one);
    AddRules(g, g.one, g.Neg(g.one), z);
    AddRules(g, g.Neg(g.one), g.one, z);
    MulZero(g, z);
    AddRules(g, z, g.Neg(z), z);
    AddRules(g, g.Neg(z), z, z);
    MulRules(g, z, g.one, z);
    AddCancel(g, m, g.Neg(z), z);
  }

  function Ones<S(==)>(g: Field<S>, n: nat): (r: seq<S>)
    ensures |r| == n && forall i :: 0 <= i < n ==> r[i] == g.one
  {
    if n == 0 then [] else Ones(g, n - 1) + [g.one]
  }

  lemma {:induction false} UnitSumOne<S(!new)>(g: Field<S>, xs: seq<S>, m: nat)
    requires IsField(g) && m < |xs|
    ensures Interpolate(g, xs, Ones(g, |xs|), m, m + 1) == g.one
  {
    var ls := Coeffs(g, xs, m, m + 1, |xs|);
    assert CoeffAt(g, xs, ls, m, m, m + 1);
    assert Num(g, xs, m, m, m + 1) == g.one && Den(g, xs, m, m, m + 1) == g.one;
    MulRules(g, g.one, g.Inv(g.one), g.one);
    AddRules(g, g.zero, g.one, g.one);
    AddRules(g, g.one, g.zero, g.one);
    assert Dot(g, ls, Ones(g, |xs|), m, m) == g.zero;
  }

  /** The Lagrange coefficients sum to one. */
  lemma {:induction false} UnitSum<S(!new)>(g: Field<S>, xs: seq<S>, m: nat, n: nat)
    requires IsField(g) && Distinct(xs) && m < n <= |xs|
    ensures Interpolate(g, xs, Ones(g, |xs|), m, n) == g.one
    decreases n - m
  {
    if n == m + 1 {
      UnitSumOne(g, xs, m);
    } else {
      var ones, l := Ones(g, |xs|), n - 1;
      UnitSum(g, xs, m, l);
      UnitSum(g, xs, m + 1, n);
      SumDropLast(g, xs, ones, m, l);
      SumDropFirst(g, xs, ones, m, n);
      SumWeighted(g, xs[l], xs, ones, m, n);
      SumWeighted(g, xs[m], xs, ones, m, n);
      assert Differ(xs, l, m);
      SolveUnit(g, xs[l], xs[m], Interpolate(g, xs, ones, m, n), Interpolate(g, xs, Products(g, xs, ones, |xs|), m, n));
    }
  }

  /** From `x * a - b == x` and `y * a - b == y` with `x != y` follows `a == 1`. */
  lemma {:induction false} SolveUnit<S(!new)>(g: Field<S>, x: S, y: S, a: S, b: S)
    requires IsField(g) && x != y
    requires g.Sub(g.Mul(x, a), b) == g.Mul(x, g.one) && g.Sub(g.Mul(y, a), b) == g.Mul(y, g.one)
    ensures a == g.one
  {
    var d := g.Sub(x, y);
    SubZero(g, x, y);
    // x == d + y, so d * a + (y * a - b) == d + y
    AddRules(g, d, y, a);
    MulRules(g, a, d, y);
    MulRules(g, x, a, a);
    MulRules(g, y, a, a);
    MulRules(g, a, d, a);
    AddRules(g, g.Mul(d, a), g.Mul(y, a), g.Neg(b));
    MulRules(g, x, g.one, g.one);
    MulRules(g, y, g.one, g.one);
    MulRules(g, d, g.one, g.one);
    AddCancel(g, g.Mul(d, a), d, y);
    MulRules(g, g.one, d, d);
    MulCancel(g, d, a, g.one);
  }

  /** The values of the polynomial `c[j..]` at the first `k` points. */
  function Values<S(==)>(g: Field<S>, c: seq<S>, j: nat, xs: seq<S>, k: nat): (ys: seq<S>)
    requires j <= |c| && k <= |xs|
    ensures |ys| == k && forall i :: 0 <= i < k ==> ys[i] == Eval(g, c, j, xs[i])
  {
    if k == 0 then [] else Values(g, c, j, xs, k - 1) + [Eval(g, c, j, xs[k - 1])]
  }

  /** Interpolating a polynomial of degree below the number of distinct points
      gives its constant term. */
  lemma {:induction false} Reconstruct<S(!new)>(g: Field<S>, c: seq<S>, j: nat, xs: seq<S>, m: nat, n: nat)
    requires IsField(g) && Distinct(xs) && m < n <= |xs| && j < |c| && |c| - j <= n - m
    ensures Interpolate(g, xs, Values(g, c, j, xs, |xs|), m, n) == c[j]
    decreases |c| - j, n - m
  {
    UnitSum(g, xs, m, n);
    if j + 1 == |c| {
      ReconstructConstant(g, c, xs, m, n);
    } else {
      Reconstruct(g, c, j + 1, xs, m, n);
      Reconstruct(g, c, j + 1, xs, m, n - 1);
      ProductsVanish(g, xs, Values(g, c, j + 1, xs, |xs|), m, n);
      ReconstructStep(g, c, j, xs, m, n);
    }
  }

  /** Values that interpolate alike with and without the last point vanish when
      multiplied by the points. */
  lemma {:induction false} ProductsVanish<S(!new)>(g: Field<S>, xs: seq<S>, qs: seq<S>, m: nat, n: nat)
    requires IsField(g) && Distinct(xs) && m < n <= |xs| == |qs|
    requires Interpolate(g, xs, qs, m, n) == Interpolate(g, xs, qs, m, n - 1)
    ensures Interpolate(g, xs, Products(g, xs, qs, |xs|), m, n) == g.zero
  {
    SumDropLast(g, xs, qs, m, n - 1);
    SumWeighted(g, xs[n - 1], xs, qs, m, n);
    SelfSub(g, g.Mul(xs[n - 1], Interpolate(g, xs, qs, m, n)), Interpolate(g, xs, Products(g, xs, qs, |xs|), m, n));
  }

  lemma {:induction false} ReconstructConstant<S(!new)>(g: Field<S>, c: seq<S>, xs: seq<S>, m: nat, n: nat)
    requires IsField(g) && m < n <= |xs| && |c| > 0
    requires Interpolate(g, xs, Ones(g, |xs|), m, n) == g.one
    ensures Interpolate(g, xs, Values(g, c, |c| - 1, xs, |xs|), m, n) == c[|c| - 1]
  {
    var j := |c| - 1;
    var ys, ones := Values(g, c, j, xs, |xs|), Ones(g, |xs|);
    forall i | 0 <= i < |xs| ensures ys[i] == g.Add(g.Mul(c[j], ones[i]), g.Mul(g.zero, ones[i])) {
      assert Eval(g, c, j + 1, xs[i]) == g.zero;
      MulZero(g, xs[i]);
      MulZero(g, g.one);
      MulRules(g, c[j], g.one, g.one);
    }
    Linear(g, Coeffs(g, xs, m, n, |xs|), ys, c[j], ones, g.zero, ones, m, n);
    MulRules(g, c[j], g.one, g.one);
    MulZero(g, g.one);
    AddRules(g, c[j], g.zero, g.zero);
  }

  lemma {:induction false} SelfSub<S(!new)>(g: Field<S>, w: S, z: S)
    requires IsField(g) && g.Sub(w, z) == w
    ensures z == g.zero
  {
    SubZero(g, w, z);
    AddRules(g, z, w, w);
    AddRules(g, g.zero, w, w);
    AddRules(g, w, z, z);
    AddCancel(g, z, g.zero, w);
  }

  /** `f(x) == c_j + x * q(x)`, and the second part interpolates to zero. */
  lemma {:induction false} ReconstructStep<S(!new)>(g: Field<S>, c: seq<S>, j: nat, xs: seq<S>, m: nat, n: nat)
    requires IsField(g) && m < n <= |xs| && j + 1 < |c|
    requires Interpolate(g, xs, Ones(g, |xs|), m, n) == g.one
    requires Interpolate(g, xs, Products(g, xs, Values(g, c, j + 1, xs, |xs|), |xs|), m, n) == g.zero
    ensures Interpolate(g, xs, Values(g, c, j, xs, |xs|), m, n) == c[j]
  {
    var ys, ones, zs := Values(g, c, j, xs, |xs|), Ones(g, |xs|), Products(g, xs, Values(g, c, j + 1, xs, |xs|), |xs|);
    forall i | 0 <= i < |xs| ensures ys[i] == g.Add(g.Mul(c[j], ones[i]), g.Mul(g.one, zs[i])) {
      MulRules(g, c[j], g.one, g.one);
      MulRules(g, g.one, zs[i], zs[i]);
      MulRules(g, zs[i], g.one, g.one);
    }
    Linear(g, Coeffs(g, xs, m, n, |xs|), ys, c[j], ones, g.one, zs, m, n);
    MulRules(g, c[j], g.one, g.one);
    MulZero(g, g.one);
    AddRules(g, c[j], g.zero, g.zero);
  }

  // ---- the operations ----

  /** A scalar of the library: a mutable cell whose methods work in place. */
  class Scalar<S(==)> {
    var v: S

    constructor (v: S)
      ensures this.v == v
    {
      this.v := v;
    }

    method Multiply(g: Field<S>, factor: S)
      modifies this
      ensures v == g.Mul(old(v), factor)
    {
      v := g.Mul(v, factor);
    }

    method Invert(g: Field<S>)
      modifies this
      ensures v == g.Inv(old(v))
    {
      v := g.Inv(v);
    }
  }

  // ---- the group and the encodings ----

  /** The group library: scalars `S`, elements `E`, encodings and hashes. */
  datatype Suite<!S(==), !E(==)> = Suite(
    f: Field<S>, ofInt: imap<int, S>, unit: E, addition: imap<(E, E), E>, multiple: imap<(S, E), E>,
    scalarBytes: imap<S, Bytes>, bytesScalar: imap<Bytes, S>,
    elementBytes: imap<E, Bytes>, bytesElement: imap<Bytes, E>,
    toGroup: imap<Bytes, E>, digest: imap<Bytes, Bytes>)
  {
    function FromInt(x: int): S { if x in ofInt then ofInt[x] else f.zero }
    function Plus(d: E, e: E): E { if (d, e) in addition then addition[(d, e)] else unit }
    function Scale(a: S, e: E): E { if (a, e) in multiple then multiple[(a, e)] else unit }
    function EncodeScalar(a: S): Bytes { if a in scalarBytes then scalarBytes[a] else [] }
    function EncodeElement(e: E): Bytes { if e in elementBytes then elementBytes[e] else [] }
    function DecodeScalar(b: Bytes): Option<S> { if b in bytesScalar then Some(bytesScalar[b]) else None }
    function DecodeElement(b: Bytes): Option<E> { if b in bytesElement then Some(bytesElement[b]) else None }
    function HashToGroup(b: Bytes): E { if b in toGroup then toGroup[b] else unit }
    function Sha256(b: Bytes): Bytes { if b in digest then digest[b] else [] }
  }

  /** A field, a module over it without torsion, distinct scalars for distinct machine
      integers, and encodings that decode to what was encoded, except that the
      library's decoder refuses the identity of the group. */
  ghost predicate Lawful<S(!new), E(!new)>(g: Suite<S, E>) {
    && IsField(g.f)
    && (forall k :: k in g.addition) && (forall k :: k in g.multiple)
    && (forall a, b, e {:trigger At(a, b, e)} ::
          && g.Scale(a, g.Scale(b, e)) == g.Scale(g.f.Mul(a, b), e) && g.Scale(g.f.one, e) == e
          && g.Plus(g.Scale(a, e), g.Scale(b, e)) == g.Scale(g.f.Add(a, b), e))
    && (forall a, e {:trigger g.Scale(a, e)} :: g.Scale(a, e) == g.unit <==> a == g.f.zero || e == g.unit)
    && (forall a {:trigger g.EncodeScalar(a)} :: g.DecodeScalar(g.EncodeScalar(a)) == Some(a))
    && (forall e {:trigger g.EncodeElement(e)} ::
          g.DecodeElement(g.EncodeElement(e)) == if e == g.unit then None else Some(e))
    && g.FromInt(1) == g.f.one
    && (forall x, y {:trigger g.FromInt(x), g.FromInt(y)} ::
          0 <= x < y < 0x8000_0000_0000_0000 ==> g.FromInt(x) != g.FromInt(y))
  }

  datatype Error = EmptyTag | BadThreshold | TooFew | BadIndex | Duplicate | BadEncoding

  datatype Result<+T> = Ok(value: T) | Err(error: Error)

  datatype Share = Share(index: int, share: Bytes)

  /** Share `i` is the value of the dealer's polynomial at `i + 1`. */
  ghost predicate SharesOf<S, E>(g: Suite<S, E>, coeffs: seq<S>, shares: seq<Share>) {
    forall i :: 0 <= i < |shares| ==> shares[i] == Share(i + 1, g.EncodeScalar(Eval(g.f, coeffs, 0, g.FromInt(i + 1))))
  }

  /** GenerateOPRFShares, with the random coefficients as a parameter. */
  method GenerateShares<S(==, !new), E(==, !new)>(g: Suite<S, E>, coeffs: seq<S>, n: int)
    returns (r: Result<seq<Share>>)
    requires Lawful(g)
    ensures coeffs == [] || n < |coeffs| ==> r == Err(BadThreshold)
    ensures 1 <= |coeffs| <= n ==> r.Ok? && |r.value| == n && SharesOf(g, coeffs, r.value)
  {
    if |coeffs| < 1 || n < |coeffs| {
      return Err(BadThreshold);
    }
    var shares := [];
    for point := 1 to n + 1
      invariant |shares| == point - 1 && SharesOf(g, coeffs, shares)
    {
      var out := EvalByPowers(g.f, coeffs, g.FromInt(point));
      shares := shares + [Share(point, g.EncodeScalar(out))];
    }
    return Ok(shares);
  }

  /** The inner loop of GenerateOPRFShares: summing `c_k * x^k`. */
  method EvalByPowers<S(==, !new)>(g: Field<S>, coeffs: seq<S>, x: S) returns (out: S)
    requires IsField(g)
    ensures out == Eval(g, coeffs, 0, x)
  {
    out := g.zero;
    var p := g.one;
    AddZero(g, Eval(g, coeffs, 0, x));
    for k := 0 to |coeffs|
      invariant g.Add(out, g.Mul(p, Eval(g, coeffs, k, x))) == Eval(g, coeffs, 0, x)
    {
      HornerStep(g, out, p, coeffs[k], x, Eval(g, coeffs, k + 1, x));
      out := g.Add(out, g.Mul(p, coeffs[k]));
      p := g.Mul(p, x);
    }
    MulZero(g, p);
    AddRules(g, out, g.zero, g.zero);
  }

  lemma {:induction false} AddZero<S(!new)>(g: Field<S>, e: S)
    requires IsField(g)
    ensures g.Add(g.zero, g.Mul(g.one, e)) == e
  {
    MulRules(g, g.one, e, e);
    MulRules(g, e, g.one, e);
    AddRules(g, g.zero, e, e);
    AddRules(g, e, g.zero, e);
  }

  lemma {:induction false} HornerStep<S(!new)>(g: Field<S>, out: S, p: S, c: S, x: S, rest: S)
    requires IsField(g)
    ensures g.Add(out, g.Mul(p, g.Add(c, g.Mul(x, rest)))) == g.Add(g.Add(out, g.Mul(p, c)), g.Mul(g.Mul(p, x), rest))
  {
    MulRules(g, p, c, g.Mul(x, rest));
    MulRules(g, p, x, rest);
    AddRules(g, out, g.Mul(p, c), g.Mul(p, g.Mul(x, rest)));
  }

  /** The product of the first `k` scalars. */
  ghost function Product<S>(g: Field<S>, vs: seq<S>, k: nat): S
    requires k <= |vs|
  {
    if k == 0 then g.one else g.Mul(Product(g, vs, k - 1), vs[k - 1])
  }

  lemma {:induction false} ProductNonZero<S(!new)>(g: Field<S>, vs: seq<S>, k: nat)
    requires IsField(g) && k <= |vs|
    ensures Product(g, vs, k) != g.zero <==> forall i :: 0 <= i < k ==> vs[i] != g.zero
  {
    if k > 0 {
      ProductNonZero(g, vs, k - 1);
      NonZeroProduct(g, Product(g, vs, k - 1), vs[k - 1]);
    }
  }

  /** One step of the backward pass: from the inverse of `p * s` come the inverse
      of `s` and the inverse of `p`. */
  lemma {:induction false} BackwardStep<S(!new)>(g: Field<S>, p: S, s: S)
    requires IsField(g)
    ensures g.Mul(p, s) != g.zero ==>
              && g.Mul(p, g.Inv(g.Mul(p, s))) == g.Inv(s)
              && g.Mul(g.Inv(g.Mul(p, s)), s) == g.Inv(p)
    ensures g.Mul(p, g.zero) == g.zero && g.Mul(g.zero, s) == g.zero
  {
    MulZero(g, p);
    MulZero(g, s);
    NonZeroProduct(g, p, s);
    var q := g.Mul(p, s);
    if q != g.zero {
      var i := g.Inv(q);
      MulRules(g, q, i, i);
      MulRules(g, p, s, i);
      MulRules(g, s, i, i);
      MulRules(g, p, i, s);
      MulRules(g, i, s, p);
      MulRules(g, s, p, i);
      MulRules(g, p, g.Inv(p), p);
      MulRules(g, s, g.Inv(s), s);
      MulRules(g, g.Inv(p), p, p);
      MulRules(g, g.Inv(s), s, s);
      MulRules(g, g.Mul(i, s), p, p);
      assert g.Mul(g.Mul(i, s), p) == g.one;
      assert g.Mul(g.Mul(p, i), s) == g.one;
      MulCancel(g, p, g.Mul(i, s), g.Inv(p));
      MulCancel(g, s, g.Mul(p, i), g.Inv(s));
    }
  }

  /** The cells hold the values `vs`. */
  ghost predicate Hold<S>(cells: seq<Scalar<S>>, vs: seq<S>)
    reads cells
  {
    |cells| == |vs| && forall k :: 0 <= k < |vs| ==> cells[k].v == vs[k]
  }

  ghost predicate NoAlias<S>(cells: seq<Scalar<S>>) {
    forall j, k :: 0 <= j < k < |cells| ==> cells[j] != cells[k]
  }

  ghost predicate AllNonZero<S>(g: Field<S>, vs: seq<S>) {
    forall k :: 0 <= k < |vs| ==> vs[k] != g.zero
  }

  /** The forward pass: cell `i` holds the product of the scalars up to `i`. */
  method PrefixProducts<S(==, !new)>(g: Field<S>, scalars: seq<Scalar<S>>, ghost vs: seq<S>, ghost ps: seq<S>)
    returns (prefix: seq<Scalar<S>>)
    requires Hold(scalars, vs) && |vs| == |ps| > 0 && ps[0] == vs[0]
    requires forall k :: 1 <= k < |vs| ==> ps[k] == g.Mul(ps[k - 1], vs[k])
    ensures fresh(prefix) && NoAlias(prefix) && Hold(prefix, ps)
  {
    var first := new Scalar(scalars[0].v);
    prefix := [first];
    for i := 1 to |scalars|
      invariant |prefix| == i && fresh(prefix) && NoAlias(prefix)
      invariant forall k :: 0 <= k < i ==> prefix[k].v == ps[k]
      invariant Hold(scalars, vs)
    {
      var cell := new Scalar(prefix[i - 1].v);
      cell.Multiply(g, scalars[i].v);
      prefix := prefix + [cell];
    }
  }

  /** The values of the backward pass: multiplying the prefix product before `i`
      by the carry at `i` gives the result at `i`, and multiplying the carry by
      the scalar gives the next carry. */
  ghost predicate Backward<S>(g: Field<S>, vs: seq<S>, ps: seq<S>, cs: seq<S>, rs: seq<S>) {
    && |vs| == |ps| == |cs| == |rs| > 0 && cs[0] == rs[0]
    && forall i :: 1 <= i < |vs| ==> g.Mul(ps[i - 1], cs[i]) == rs[i] && g.Mul(cs[i], vs[i]) == cs[i - 1]
  }

  /** The backward pass over the prefix cells, the last of which was inverted:
      `prefix[i - 1]` becomes an alias of `prefix[i]`. */
  method BackwardPass<S(==)>(g: Field<S>, scalars: seq<Scalar<S>>, cells: seq<Scalar<S>>,
                                    ghost vs: seq<S>, ghost ps: seq<S>, ghost cs: seq<S>, ghost rs: seq<S>)
    returns (invs: seq<Scalar<S>>)
    requires Backward(g, vs, ps, cs, rs)
    requires Hold(scalars, vs) && |cells| == |vs| && NoAlias(cells)
    requires forall k :: 0 <= k < |vs| ==> scalars[k] != cells[|vs| - 1]
    requires forall k :: 0 <= k < |vs| - 1 ==> cells[k].v == ps[k]
    requires cells[|vs| - 1].v == cs[|vs| - 1]
    modifies cells[|cells| - 1]
    ensures |invs| == |vs| && invs[0] == cells[|cells| - 1] && forall k :: 1 <= k < |vs| ==> fresh(invs[k])
    ensures Hold(invs, rs)
  {
    var prefix := cells;
    var last := cells[|cells| - 1];
    invs := cells;
    var i := |scalars| - 1;
    while i > 0
      invariant 0 <= i < |vs| && |invs| == |prefix| == |vs| && prefix[i] == last
      invariant forall k :: 0 <= k < i ==> prefix[k] == cells[k]
      invariant last.v == cs[i]
      invariant forall k :: 0 <= k < |vs| - 1 ==> cells[k].v == ps[k]
      invariant forall k :: i < k < |vs| ==> fresh(invs[k]) && invs[k].v == rs[k]
      invariant Hold(scalars, vs)
    {
      var cell := new Scalar(prefix[i - 1].v);
      cell.Multiply(g, prefix[i].v);
      invs := invs[i := cell];
      prefix[i].Multiply(g, scalars[i].v);
      prefix := prefix[i - 1 := prefix[i]];
      i := i - 1;
    }
    invs := invs[0 := prefix[0]];
  }

  /** The prefix products, carries and results for given scalars. */
  lemma {:induction false} BackwardValues<S(!new)>(g: Field<S>, vs: seq<S>) returns (ps: seq<S>, cs: seq<S>, rs: seq<S>)
    requires IsField(g) && |vs| > 0
    ensures Backward(g, vs, ps, cs, rs) && cs[|vs| - 1] == g.Inv(ps[|vs| - 1])
    ensures ps[0] == vs[0] && forall k :: 1 <= k < |vs| ==> ps[k] == g.Mul(ps[k - 1], vs[k])
    ensures forall k :: 0 <= k < |vs| ==> rs[k] == if AllNonZero(g, vs) then g.Inv(vs[k]) else g.zero
  {
    var n := |vs|;
    var all := AllNonZero(g, vs);
    ps := seq(n, k requires 0 <= k < n => Product(g, vs, k + 1));
    cs := seq(n, k requires 0 <= k < n => if all then g.Inv(ps[k]) else g.zero);
    rs := seq(n, k requires 0 <= k < n => if all then g.Inv(vs[k]) else g.zero);
    ProductNonZero(g, vs, n);
    MulRules(g, vs[0], g.one, g.one);
    MulRules(g, g.one, vs[0], g.one);
    assert Product(g, vs, 1) == g.Mul(Product(g, vs, 0), vs[0]);
    forall k | 1 <= k < n
      ensures ps[k] == g.Mul(ps[k - 1], vs[k]) && g.Mul(ps[k - 1], cs[k]) == rs[k] && g.Mul(cs[k], vs[k]) == cs[k - 1]
    {
      ProductNonZero(g, vs, k + 1);
      BackwardStep(g, ps[k - 1], vs[k]);
      MulZero(g, ps[k - 1]);
    }
  }

  /** batchInvert: one inversion and aliased prefix cells. When every scalar is
      nonzero each result is the inverse of its scalar; a single zero makes the
      shared product, and so every result, zero. */
  method BatchInvert<S(==, !new)>(g: Field<S>, scalars: seq<Scalar<S>>, ghost vs: seq<S>) returns (invs: seq<Scalar<S>>)
    requires IsField(g) && Hold(scalars, vs)
    ensures fresh(invs) && |invs| == |vs|
    ensures forall k :: 0 <= k < |vs| ==> invs[k].v == if AllNonZero(g, vs) then g.Inv(vs[k]) else g.zero
  {
    var n := |scalars|;
    if n == 0 {
      return [];
    }
    if n == 1 {
      var only := new Scalar(scalars[0].v);
      only.Invert(g);
      return [only];
    }
    ghost var ps, cs, rs := BackwardValues(g, vs);
    var prefix := PrefixProducts(g, scalars, vs, ps);
    prefix[n - 1].Invert(g);
    invs := BackwardPass(g, scalars, prefix, vs, ps, cs, rs);
  }

  // ---- combining evaluations ----

  datatype Evaluation = Evaluation(shareIndex: int, eval: Bytes)

  ghost predicate UniqueIndexes(evaluations: seq<Evaluation>) {
    forall i, j :: 0 <= i < j < |evaluations| ==> evaluations[i].shareIndex != evaluations[j].shareIndex
  }

  /** verifyUniqueEvaluations. */
  method VerifyUnique(evaluations: seq<Evaluation>) returns (unique: bool)
    ensures unique <==> UniqueIndexes(evaluations)
  {
    var seen: set<int> := {};
    for i := 0 to |evaluations|
      invariant seen == set k | 0 <= k < i :: evaluations[k].shareIndex
      invariant UniqueIndexes(evaluations[..i])
    {
      if evaluations[i].shareIndex in seen {
        return false;
      }
      seen := seen + {evaluations[i].shareIndex};
    }
    assert evaluations[..|evaluations|] == evaluations;
    return true;
  }

  /** The evaluation points of the evaluations, as scalars. */
  function Points<S(==), E(==)>(g: Suite<S, E>, evaluations: seq<Evaluation>): (xs: seq<S>)
    ensures |xs| == |evaluations| && forall i :: 0 <= i < |xs| ==> xs[i] == g.FromInt(evaluations[i].shareIndex)
  {
    if evaluations == [] then [] else
      var rest := Points(g, evaluations[..|evaluations| - 1]);
      rest + [g.FromInt(evaluations[|evaluations| - 1].shareIndex)]
  }

  /** The double loop of lagrangeAtZero for one point: numerator and denominator. */
  method NumDen<S(==, !new)>(g: Field<S>, xs: seq<S>, i: nat) returns (num: S, den: S)
    requires i < |xs|
    ensures num == Num(g, xs, i, 0, |xs|) && den == Den(g, xs, i, 0, |xs|)
  {
    num, den := g.one, g.one;
    for j := 0 to |xs|
      invariant num == Num(g, xs, i, 0, j) && den == Den(g, xs, i, 0, j)
    {
      if i != j {
        num := g.Mul(num, xs[j]);
        den := g.Mul(den, g.Sub(xs[j], xs[i]));
      }
    }
  }

  method NumsDens<S(==, !new)>(g: Field<S>, xs: seq<S>) returns (nums: seq<S>, dens: seq<Scalar<S>>, ghost vs: seq<S>)
    requires IsField(g) && Distinct(xs)
    ensures |nums| == |xs| && forall k :: 0 <= k < |xs| ==> nums[k] == Num(g, xs, k, 0, |xs|)
    ensures |vs| == |xs| && forall k :: 0 <= k < |xs| ==> vs[k] == Den(g, xs, k, 0, |xs|) != g.zero
    ensures Hold(dens, vs)
  {
    nums, dens, vs := [], [], [];
    for i := 0 to |xs|
      invariant |nums| == i && forall k :: 0 <= k < i ==> nums[k] == Num(g, xs, k, 0, |xs|)
      invariant |vs| == i && forall k :: 0 <= k < i ==> vs[k] == Den(g, xs, k, 0, |xs|) != g.zero
      invariant Hold(dens, vs)
    {
      var num, den := NumDen(g, xs, i);
      DenNonZero(g, xs, i, 0, |xs|);
      var cell := new Scalar(den);
      nums, dens, vs := nums + [num], dens + [cell], vs + [den];
    }
  }

  /** lagrangeAtZero, on the scalars of the checked points. */
  method LagrangeAtZero<S(==, !new)>(g: Field<S>, xs: seq<S>) returns (coeffs: seq<S>)
    requires IsField(g) && Distinct(xs)
    ensures |coeffs| == |xs| && forall i :: 0 <= i < |xs| ==> coeffs[i] == Lagrange(g, xs, i, 0, |xs|)
  {
    var nums, dens, vs := NumsDens(g, xs);
    var denInvs := BatchInvert(g, dens, vs);
    coeffs := [];
    for i := 0 to |xs|
      invariant |coeffs| == i && forall k :: 0 <= k < i ==> coeffs[k] == Lagrange(g, xs, k, 0, |xs|)
    {
      coeffs := coeffs + [g.Mul(nums[i], denInvs[i].v)];
    }
  }

  /** Every evaluation is the daemon's share of the polynomial `c` applied to the blinded element. */
  ghost predicate Honest<S, E>(g: Suite<S, E>, c: seq<S>, blinded: E, evaluations: seq<Evaluation>) {
    forall i :: 0 <= i < |evaluations| ==>
                  var y := Eval(g.f, c, 0, g.FromInt(evaluations[i].shareIndex));
                  evaluations[i].eval == g.EncodeElement(g.Scale(y, blinded))
  }

  ghost predicate ValidIndexes(evaluations: seq<Evaluation>) {
    UniqueIndexes(evaluations) && forall e <- evaluations :: 0 < e.shareIndex < 0x8000_0000_0000_0000
  }

  lemma {:induction false} DistinctPoints<S(!new), E(!new)>(g: Suite<S, E>, evaluations: seq<Evaluation>)
    requires Lawful(g) && ValidIndexes(evaluations)
    ensures Distinct(Points(g, evaluations))
  {
    var xs := Points(g, evaluations);
    forall i, j ensures Differ(xs, i, j) {
      if 0 <= i < |xs| && 0 <= j < |xs| && i != j {
        var a, b := evaluations[i], evaluations[j];
        assert a in evaluations && b in evaluations;
        assert g.FromInt(a.shareIndex) != g.FromInt(b.shareIndex);
      }
    }
  }

  /** No answer for `e` is the identity: neither `e` nor the share of a daemon that
      answered is zero. */
  ghost predicate NoIdentity<S, E>(g: Suite<S, E>, c: seq<S>, e: E, evaluations: seq<Evaluation>) {
    && e != g.unit
    && forall i :: 0 <= i < |evaluations| ==> Eval(g.f, c, 0, g.FromInt(evaluations[i].shareIndex)) != g.f.zero
  }

  /** The interpolation loop of OPRFCombineUnblind. */
  method Combine<S(==, !new), E(==, !new)>(g: Suite<S, E>, coeffs: seq<S>, evaluations: seq<Evaluation>,
                                           ghost ys: seq<S>, ghost blinded: E) returns (combined: Option<E>)
    requires Lawful(g) && |coeffs| == |evaluations| == |ys| > 0
    ensures combined.None? <==> exists i :: 0 <= i < |evaluations| && g.DecodeElement(evaluations[i].eval).None?
    ensures (forall i :: 0 <= i < |ys| ==> evaluations[i].eval == g.EncodeElement(g.Scale(ys[i], blinded))) ==>
              combined == if blinded == g.unit || g.f.zero in ys then None
                          else Some(g.Scale(Dot(g.f, coeffs, ys, 0, |ys|), blinded))
  {
    ghost var honest := forall i :: 0 <= i < |ys| ==> evaluations[i].eval == g.EncodeElement(g.Scale(ys[i], blinded));
    var sum := g.unit;
    for i := 0 to |evaluations|
      invariant forall k :: 0 <= k < i ==> g.DecodeElement(evaluations[k].eval).Some?
      invariant honest && i > 0 ==> blinded != g.unit && sum == g.Scale(Dot(g.f, coeffs, ys, 0, i), blinded)
      invariant honest ==> g.f.zero !in ys[..i]
    {
      var decoded := g.DecodeElement(evaluations[i].eval);
      if decoded.None? {
        assert honest && blinded != g.unit ==> ys[i] == g.f.zero;
        return None;
      }
      assert honest ==> ys[i] != g.f.zero && ys[..i + 1] == ys[..i] + [ys[i]];
      var e := g.Scale(coeffs[i], decoded.value);
      if honest {
        TermScaled(g, coeffs[i], ys[i], Dot(g.f, coeffs, ys, 0, i), blinded);
      }
      sum := if i == 0 then e else g.Plus(sum, e);
    }
    assert ys[..|ys|] == ys;
    return Some(sum);
  }

  lemma {:induction false} TermScaled<S(!new), E(!new)>(g: Suite<S, E>, l: S, y: S, sum: S, b: E)
    requires Lawful(g)
    ensures g.Plus(g.Scale(sum, b), g.Scale(l, g.Scale(y, b))) == g.Scale(g.f.Add(sum, g.f.Mul(l, y)), b)
    ensures g.Scale(l, g.Scale(y, b)) == g.Scale(g.f.Add(g.f.zero, g.f.Mul(l, y)), b)
  {
    assert At(l, y, b) && At(sum, g.f.Mul(l, y), b);
    AddRules(g.f, g.f.zero, g.f.Mul(l, y), g.f.zero);
    AddRules(g.f, g.f.Mul(l, y), g.f.zero, g.f.zero);
  }

  /** Unblinding: the blind cancels. */
  lemma {:induction false} Unblinds<S(!new), E(!new)>(g: Suite<S, E>, r: S, k: S, t: E)
    requires Lawful(g) && r != g.f.zero
    ensures g.Scale(g.f.Inv(r), g.Scale(k, g.Scale(r, t))) == g.Scale(k, t)
  {
    var i := g.f.Inv(r);
    assert At(k, r, t) && At(i, g.f.Mul(k, r), t);
    MulRules(g.f, r, i, i);
    MulRules(g.f, k, r, i);
    MulRules(g.f, i, g.f.Mul(k, r), i);
    MulRules(g.f, k, g.f.one, g.f.one);
  }

  /** OPRFBlind, with the random scalar as a parameter. */
  method Blind<S(==, !new), E(==, !new)>(g: Suite<S, E>, tag: Bytes, r: S) returns (out: Result<(Bytes, Bytes)>)
    ensures out == if tag == [] then Err(EmptyTag)
                   else Ok((g.EncodeElement(g.Scale(r, g.HashToGroup(tag))), g.EncodeScalar(r)))
  {
    if tag == [] {
      return Err(EmptyTag);
    }
    return Ok((g.EncodeElement(g.Scale(r, g.HashToGroup(tag))), g.EncodeScalar(r)));
  }

  /** OPRFEvaluateShare. A daemon refuses the identity, but may well answer it. */
  method EvaluateShare<S(==, !new), E(==, !new)>(g: Suite<S, E>, share: Bytes, blinded: Bytes, ghost y: S, ghost b: E)
    returns (out: Result<Bytes>)
    requires Lawful(g)
    ensures g.DecodeScalar(share).None? || g.DecodeElement(blinded).None? ==> out == Err(BadEncoding)
    ensures share == g.EncodeScalar(y) && blinded == g.EncodeElement(b) ==>
              out == if b == g.unit then Err(BadEncoding) else Ok(g.EncodeElement(g.Scale(y, b)))
  {
    var scalar, element := g.DecodeScalar(share), g.DecodeElement(blinded);
    if scalar.None? || element.None? {
      return Err(BadEncoding);
    }
    return Ok(g.EncodeElement(g.Scale(scalar.value, element.value)));
  }

  /** oprfFinalizeElement. */
  method Finalize<S(==, !new), E(==, !new)>(g: Suite<S, E>, e: E, blind: Bytes) returns (key: Result<Bytes>)
    ensures key == match g.DecodeScalar(blind)
                   case None => Err(BadEncoding)
                   case Some(b) => Ok(g.Sha256(g.EncodeElement(g.Scale(g.f.Inv(b), e))))
  {
    var b := g.DecodeScalar(blind);
    if b.None? {
      return Err(BadEncoding);
    }
    return Ok(g.Sha256(g.EncodeElement(g.Scale(g.f.Inv(b.value), e))));
  }

  /** The content key of `t` under the secret `f(0)`. */
  function ContentKey<S(==), E(==)>(g: Suite<S, E>, secret: S, t: E): Bytes {
    g.Sha256(g.EncodeElement(g.Scale(secret, t)))
  }

  /** Evaluations, from any quorum, that determine the secret of the sharing `c`. */
  ghost predicate Quorum<S, E>(g: Suite<S, E>, c: seq<S>, blinded: E, evaluations: seq<Evaluation>, threshold: int) {
    && 1 <= |c| <= |evaluations| && 1 <= threshold <= |evaluations| && (threshold == 1 ==> |c| == 1)
    && ValidIndexes(evaluations) && Honest(g, c, blinded, evaluations)
  }

  /** OPRFCombineUnblind: whatever quorum answered, the key is the one of `f(0)`, unless
      an answer is the identity: then, and only then, the evaluations are refused. */
  method CombineUnblind<S(==, !new), E(==, !new)>(g: Suite<S, E>, evaluations: seq<Evaluation>, blind: Bytes,
                                                  threshold: int, ghost c: seq<S>, ghost t: E, ghost r: S)
    returns (key: Result<Bytes>)
    requires Lawful(g)
    requires forall e <- evaluations :: e.shareIndex < 0x8000_0000_0000_0000
    ensures threshold < 1 ==> key == Err(BadThreshold)
    ensures 1 <= threshold && |evaluations| < threshold ==> key == Err(TooFew)
    ensures 1 <= threshold <= |evaluations| && !UniqueIndexes(evaluations) ==> key.Err?
    ensures 1 < threshold <= |evaluations| && (exists e <- evaluations :: e.shareIndex <= 0) ==> key == Err(BadIndex)
    ensures r != g.f.zero && blind == g.EncodeScalar(r) && Quorum(g, c, g.Scale(r, t), evaluations, threshold) ==>
              key == if NoIdentity(g, c, t, evaluations) then Ok(ContentKey(g, c[0], t)) else Err(BadEncoding)
  {
    if threshold < 1 {
      return Err(BadThreshold);
    }
    if |evaluations| < threshold {
      return Err(TooFew);
    }
    ghost var b := g.Scale(r, t);
    ghost var honest := r != g.f.zero && blind == g.EncodeScalar(r) && Quorum(g, c, b, evaluations, threshold);
    if honest {
      Unblinds(g, r, c[0], t);
    }
    if threshold == 1 {
      var unique := VerifyUnique(evaluations);
      if !unique {
        return Err(Duplicate);
      }
      if honest {
        ConstantShares(g, c, evaluations);
      }
      var e := g.DecodeElement(evaluations[0].eval);
      if e.None? {
        return Err(BadEncoding);
      }
      key := Finalize(g, e.value, blind);
      return;
    }
    var positive := AllPositive(evaluations);
    if !positive {
      return Err(BadIndex);
    }
    var unique := VerifyUnique(evaluations);
    if !unique {
      return Err(Duplicate);
    }
    key := InterpolateUnblind(g, evaluations, blind, c, b);
  }

  /** The part of OPRFCombineUnblind after the indexes were checked. */
  method InterpolateUnblind<S(==, !new), E(==, !new)>(g: Suite<S, E>, evaluations: seq<Evaluation>, blind: Bytes,
                                                      ghost c: seq<S>, ghost b: E) returns (key: Result<Bytes>)
    requires Lawful(g) && ValidIndexes(evaluations) && |evaluations| > 0
    ensures key.Err? ==> key == Err(BadEncoding)
    ensures Honest(g, c, b, evaluations) && 1 <= |c| <= |evaluations| && g.DecodeScalar(blind).Some? ==>
              key == if !NoIdentity(g, c, b, evaluations) then Err(BadEncoding)
                     else Ok(g.Sha256(g.EncodeElement(g.Scale(g.f.Inv(g.DecodeScalar(blind).value), g.Scale(c[0], b)))))
  {
    var xs := Points(g, evaluations);
    DistinctPoints(g, evaluations);
    var coeffs := LagrangeAtZero(g.f, xs);
    ghost var ys := Values(g.f, c, 0, xs, |xs|);
    if 1 <= |c| <= |evaluations| {
      CombinesToSecret(g.f, c, xs, coeffs);
    }
    var combined := Combine(g, coeffs, evaluations, ys, b);
    if combined.None? {
      return Err(BadEncoding);
    }
    key := Finalize(g, combined.value, blind);
  }

  method AllPositive(evaluations: seq<Evaluation>) returns (positive: bool)
    ensures positive <==> forall e <- evaluations :: e.shareIndex > 0
  {
    for i := 0 to |evaluations|
      invariant forall e <- evaluations[..i] :: e.shareIndex > 0
    {
      if evaluations[i].shareIndex <= 0 {
        return false;
      }
    }
    return true;
  }

  lemma {:induction false} ConstantShare<S(!new)>(g: Field<S>, c: seq<S>, x: S)
    requires IsField(g) && |c| == 1
    ensures Eval(g, c, 0, x) == c[0]
  {
    assert Eval(g, c, 1, x) == g.zero;
    MulZero(g, x);
    AddRules(g, c[0], g.zero, g.zero);
  }

  lemma {:induction false} ConstantShares<S(!new), E(!new)>(g: Suite<S, E>, c: seq<S>, evaluations: seq<Evaluation>)
    requires IsField(g.f) && |c| == 1
    ensures forall i :: 0 <= i < |evaluations| ==> Eval(g.f, c, 0, g.FromInt(evaluations[i].shareIndex)) == c[0]
  {
    forall i | 0 <= i < |evaluations| ensures Eval(g.f, c, 0, g.FromInt(evaluations[i].shareIndex)) == c[0] {
      ConstantShare(g.f, c, g.FromInt(evaluations[i].shareIndex));
    }
  }

  lemma {:induction false} CombinesToSecret<S(!new)>(g: Field<S>, c: seq<S>, xs: seq<S>, coeffs: seq<S>)
    requires IsField(g) && Distinct(xs) && 1 <= |c| <= |xs| == |coeffs|
    requires forall i :: 0 <= i < |xs| ==> coeffs[i] == Lagrange(g, xs, i, 0, |xs|)
    ensures Dot(g, coeffs, Values(g, c, 0, xs, |xs|), 0, |xs|) == c[0]
  {
    var ls := Coeffs(g, xs, 0, |xs|, |xs|);
    forall i | 0 <= i < |xs| ensures ls[i] == coeffs[i] {
      assert CoeffAt(g, xs, ls, i, 0, |xs|);
    }
    assert ls == coeffs;
    Reconstruct(g, c, 0, xs, 0, |xs|);
  }

  /** Some daemon of the quorum holds the zero share of the sharing. */
  ghost predicate ZeroShareIn<S, E>(g: Suite<S, E>, coeffs: seq<S>, quorum: seq<int>) {
    exists q <- quorum :: Eval(g.f, coeffs, 0, g.FromInt(q)) == g.f.zero
  }

  /** The whole flow: a dealer shares a secret among `n` daemons, a client blinds
      a tag, the daemons chosen by `quorum` answer, and the client combines. Every
      quorum of at least `|coeffs|` daemons yields the key of the secret, if and only
      if none of its daemons holds a zero share and the tag is not hashed to the
      identity. */
  method Flow<S(==, !new), E(==, !new)>(g: Suite<S, E>, coeffs: seq<S>, n: int, tag: Bytes, r: S, quorum: seq<int>)
    returns (key: Result<Bytes>)
    requires Lawful(g) && 1 <= |coeffs| <= n < 0x8000_0000_0000_0000 && tag != [] && r != g.f.zero
    requires |coeffs| <= |quorum| && (forall i, j :: 0 <= i < j < |quorum| ==> quorum[i] != quorum[j])
    requires forall q <- quorum :: 1 <= q <= n
    ensures key == if g.HashToGroup(tag) == g.unit || ZeroShareIn(g, coeffs, quorum) then Err(BadEncoding)
                   else Ok(ContentKey(g, coeffs[0], g.HashToGroup(tag)))
  {
    var shares := GenerateShares(g, coeffs, n);
    var query := Blind(g, tag, r);
    ghost var blinded := g.Scale(r, g.HashToGroup(tag));
    var evaluations := [];
    for i := 0 to |quorum|
      invariant |evaluations| == i && Honest(g, coeffs, blinded, evaluations)
      invariant forall k :: 0 <= k < i ==> evaluations[k].shareIndex == quorum[k]
    {
      assert quorum[i] in quorum;
      var share := shares.value[quorum[i] - 1];
      ghost var y := Eval(g.f, coeffs, 0, g.FromInt(quorum[i]));
      assert share == Share(quorum[i], g.EncodeScalar(y));
      var answer := EvaluateShare(g, share.share, query.value.0, y, blinded);
      if answer.Err? {
        return answer;
      }
      evaluations := evaluations + [Evaluation(share.index, answer.value)];
    }
    forall e <- evaluations ensures 0 < e.shareIndex < 0x8000_0000_0000_0000 {
      assert e.shareIndex in quorum;
    }
    assert UniqueIndexes(evaluations);
    QuorumAnswers(g, coeffs, g.HashToGroup(tag), quorum, evaluations);
    key := CombineUnblind(g, evaluations, query.value.1, |coeffs|, coeffs, g.HashToGroup(tag), r);
  }

  lemma {:induction false} QuorumAnswers<S(!new), E(!new)>(g: Suite<S, E>, coeffs: seq<S>, t: E, quorum: seq<int>,
                                                           evaluations: seq<Evaluation>)
    requires |quorum| == |evaluations| && forall k :: 0 <= k < |quorum| ==> evaluations[k].shareIndex == quorum[k]
    ensures NoIdentity(g, coeffs, t, evaluations) <==> t != g.unit && !ZeroShareIn(g, coeffs, quorum)
  {
    if t != g.unit && !ZeroShareIn(g, coeffs, quorum) {
      forall i | 0 <= i < |evaluations|
        ensures Eval(g.f, coeffs, 0, g.FromInt(evaluations[i].shareIndex)) != g.f.zero
      {
        assert quorum[i] in quorum;
      }
    }
  }

  /** The dealer deals zero shares too: the sharing `[a, -a]` of any secret `a` gives one
      to the first daemon. */
  lemma {:induction false} FirstShareZero<S(!new), E(!new)>(g: Suite<S, E>, a: S)
    requires Lawful(g)
    ensures Eval(g.f, [a, g.f.Neg(a)], 0, g.FromInt(1)) == g.f.zero
  {
    var c, x, n := [a, g.f.Neg(a)], g.f.one, g.f.Neg(a);
    assert Eval(g.f, c, 2, x) == g.f.zero;
    MulZero(g.f, x);
    AddRules(g.f, n, g.f.zero, g.f.zero);
    assert Eval(g.f, c, 1, x) == n;
    MulRules(g.f, x, n, x);
    MulRules(g.f, n, x, x);
    AddRules(g.f, a, n, n);
  }

  /** With that sharing no tag has a key, whatever its secret, at any quorum the first
      daemon answers in. */
  method ZeroShareFails<S(==, !new), E(==, !new)>(g: Suite<S, E>, a: S, n: int, tag: Bytes, r: S, quorum: seq<int>)
    returns (key: Result<Bytes>)
    requires Lawful(g) && 2 <= n < 0x8000_0000_0000_0000 && tag != [] && r != g.f.zero
    requires 2 <= |quorum| && (forall i, j :: 0 <= i < j < |quorum| ==> quorum[i] != quorum[j])
    requires 1 in quorum && forall q <- quorum :: 1 <= q <= n
    ensures key == Err(BadEncoding)
  {
    FirstShareZero(g, a);
    key := Flow(g, [a, g.f.Neg(a)], n, tag, r, quorum);
  }
}
