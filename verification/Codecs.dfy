/**
 Parsers and writers of the wire and storage formats. Strings are their bytes. A
 decoder of the program is a loop that moves an offset through a buffer; it is
 proved against a parser on the remaining bytes.
 */
module Codecs {
  import opened Bytes

  datatype Error = Einval | Ebadmsg | Truncated

  /** A parsed value and what follows it. */
  datatype Parsed<+T> = Done(value: T, rest: Bytes) | Bad(error: Error)

  datatype Result<+T> = Ok(value: T) | Err(error: Error)

  // ---- parsers and writers ----

  type Parser<!T> = imap<Bytes, Parsed<T>>

  type Writer<!T> = imap<T, Bytes>

  ghost predicate IsParser<T>(p: Parser<T>) {
    forall s :: s in p
  }

  ghost predicate IsWriter<T(!new)>(w: Writer<T>) {
    forall x :: x in w
  }

  /** `n` values one behind the other. */
  ghost function ParseMany<T>(p: Parser<T>, s: Bytes, n: nat): Parsed<seq<T>>
    requires IsParser(p)
    decreases n
  {
    if n == 0 then Done([], s)
    else
      var x := p[s];
      if x.Bad? then Bad(x.error)
      else
        var xs := ParseMany(p, x.rest, n - 1);
        if xs.Bad? then xs else Done([x.value] + xs.value, xs.rest)
  }

  ghost function WriteMany<T(!new)>(w: Writer<T>, xs: seq<T>, i: nat): Bytes
    requires IsWriter(w) && i <= |xs|
    decreases |xs| - i
  {
    if i == |xs| then [] else w[xs[i]] + WriteMany(w, xs, i + 1)
  }

  /** The parser reads back what the writer wrote of `x`, or refuses it. */
  ghost predicate ReadsBack<T(!new)>(p: Parser<T>, w: Writer<T>, x: T, good: bool, e: Error)
    requires IsParser(p) && IsWriter(w)
  {
    forall rest :: p[w[x] + rest] == if good then Done(x, rest) else Bad(e)
  }

  ghost predicate AllReadBack<T(!new)>(p: Parser<T>, w: Writer<T>, xs: seq<T>, good: iset<T>, e: Error)
    requires IsParser(p) && IsWriter(w)
  {
    forall k :: 0 <= k < |xs| ==> ReadsBack(p, w, xs[k], xs[k] in good, e)
  }

  /** A list is read back exactly if all its values are good. */
  lemma {:induction false} ManyBack<T(!new)>(p: Parser<T>, w: Writer<T>, xs: seq<T>, i: nat, rest: Bytes, good: iset<T>,
                                             e: Error)
    requires IsParser(p) && IsWriter(w) && i <= |xs| && AllReadBack(p, w, xs, good, e)
    ensures ParseMany(p, WriteMany(w, xs, i) + rest, |xs| - i) ==
      if forall k :: i <= k < |xs| ==> xs[k] in good then Done(xs[i..], rest) else Bad(e)
    decreases |xs| - i
  {
    if i == |xs| {
      assert WriteMany(w, xs, i) + rest == rest;
    } else {
      ManyBack(p, w, xs, i + 1, rest, good, e);
      var tail := WriteMany(w, xs, i + 1) + rest;
      assert WriteMany(w, xs, i) + rest == w[xs[i]] + tail;
      assert ReadsBack(p, w, xs[i], xs[i] in good, e);
      assert xs[i..] == [xs[i]] + xs[i + 1..];
    }
  }

  /** The values parsed so far in front of what is still to come. */
  ghost function After<T>(xs: seq<T>, r: Parsed<seq<T>>): Parsed<seq<T>> {
    if r.Bad? then r else Done(xs + r.value, r.rest)
  }

  lemma {:induction false} AfterNone<T>(r: Parsed<seq<T>>)
    ensures After([], r) == r
  {
    if r.Done? {
      assert [] + r.value == r.value;
    }
  }

  lemma {:induction false} ParseOne<T>(p: Parser<T>, s: Bytes, n: nat, xs: seq<T>)
    requires IsParser(p) && n > 0 && p[s].Done?
    ensures After(xs, ParseMany(p, s, n)) == After(xs + [p[s].value], ParseMany(p, p[s].rest, n - 1))
  {
    var r := ParseMany(p, p[s].rest, n - 1);
    if r.Done? {
      assert xs + ([p[s].value] + r.value) == (xs + [p[s].value]) + r.value;
    }
  }

  // ---- fields ----

  function Take(s: Bytes, n: nat): Parsed<Bytes> {
    if |s| < n then Bad(Truncated) else Done(s[..n], s[n..])
  }

  lemma {:induction false} TakeFirst(a: Bytes, b: Bytes)
    ensures Take(a + b, |a|) == Done(a, b)
  {
    assert (a + b)[..|a|] == a && (a + b)[|a|..] == b;
  }

  /** A string behind its four-byte length. */
  function Sized(t: Bytes): Bytes {
    Uint32(Low32(|t|)) + t
  }

  function ParseSized(s: Bytes, max: nat): Parsed<Bytes> {
    var l := Take(s, 4);
    if l.Bad? then l
    else if FromUint32(l.value) > max then Bad(Ebadmsg)
    else Take(l.rest, FromUint32(l.value))
  }

  lemma {:induction false} SizedBack(t: Bytes, rest: Bytes, max: nat)
    requires |t| <= max && |t| < TWO_32
    ensures ParseSized(Sized(t) + rest, max) == Done(t, rest)
  {
    assert Sized(t) + rest == Uint32(|t|) + (t + rest);
    TakeFirst(Uint32(|t|), t + rest);
    RoundTrip32(|t|);
    TakeFirst(t, rest);
  }

  // ---- buffers ----

  /** copy(buf[at:], data) */
  method CopyInto(buf: array<byte>, at: nat, data: Bytes)
    requires at + |data| <= buf.Length
    modifies buf
    ensures buf[..at + |data|] == old(buf[..at]) + data
  {
    ghost var before := buf[..at];
    for i := 0 to |data|
      invariant buf[..at + i] == before + data[..i]
    {
      buf[at + i] := data[i];
      assert data[..i + 1] == data[..i] + [data[i]];
      assert buf[..at + i + 1] == buf[..at + i] + [data[i]];
    }
    assert data[..|data|] == data;
  }
}
