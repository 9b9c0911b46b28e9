/** Byte strings, optional values and the unsigned lexicographic order that the
    storage engine uses to compare user keys. */
module Bytes {

  type Byte = x: int | 0 <= x < 256

  type Key = seq<Byte>

  type Value = seq<Byte>

  datatype Option<+T> = None | Some(value: T)

  /** Strict lexicographic order. Stated over integers so that it also orders
      strings by their code points. */
  predicate Less(a: seq<int>, b: seq<int>) {
    b != [] && (a == [] || a[0] < b[0] || (a[0] == b[0] && Less(a[1..], b[1..])))
  }

  predicate AtMost(a: seq<int>, b: seq<int>) {
    a == b || Less(a, b)
  }

  lemma {:induction false} LessIrreflexive(a: seq<int>)
    ensures !Less(a, a)
  {
    if a != [] {
      LessIrreflexive(a[1..]);
    }
  }

  lemma {:induction false} LessTransitive(a: seq<int>, b: seq<int>, c: seq<int>)
    requires Less(a, b) && Less(b, c)
    ensures Less(a, c)
  {
    if a != [] && a[0] == b[0] && b[0] == c[0] {
      LessTransitive(a[1..], b[1..], c[1..]);
    }
  }

  lemma {:induction false} LessTotal(a: seq<int>, b: seq<int>)
    ensures a == b || Less(a, b) || Less(b, a)
  {
    if a != [] && b != [] && a[0] == b[0] {
      LessTotal(a[1..], b[1..]);
      assert a == [a[0]] + a[1..] && b == [b[0]] + b[1..];
    }
  }

  lemma LessAsymmetric(a: seq<int>, b: seq<int>)
    requires Less(a, b)
    ensures a != b && !Less(b, a)
  {
    LessIrreflexive(a);
    if Less(b, a) {
      LessTransitive(a, b, a);
    }
  }

  /** A shared prefix never decides a comparison. */
  lemma {:induction false} LessUnderPrefix(p: seq<int>, a: seq<int>, b: seq<int>)
    ensures Less(p + a, p + b) <==> Less(a, b)
  {
    if p == [] {
      assert p + a == a && p + b == b;
    } else {
      LessUnderPrefix(p[1..], a, b);
      assert (p + a)[1..] == p[1..] + a && (p + b)[1..] == p[1..] + b;
    }
  }

  /** The order is decided at the first difference, and a proper prefix comes first. */
  lemma LessExact(a: seq<int>, b: seq<int>, n: nat)
    requires n <= |a| && n <= |b| && a[..n] == b[..n]
    ensures n == |a| < |b| ==> Less(a, b)
    ensures n < |a| && n < |b| && a[n] < b[n] ==> Less(a, b)
    ensures n < |a| && n < |b| && a[n] > b[n] ==> !Less(a, b)
    ensures n == |b| ==> !Less(a, b)
  {
    assert a == a[..n] + a[n..] && b == b[..n] + b[n..];
    LessUnderPrefix(a[..n], a[n..], b[n..]);
  }

  /** Two strings that first differ at position `n` compare as the elements there. */
  lemma LessAtDifference(a: seq<int>, b: seq<int>, n: nat)
    requires n < |a| && n < |b| && a[..n] == b[..n] && a[n] != b[n]
    ensures Less(a, b) <==> a[n] < b[n]
  {
    LessExact(a, b, n);
  }

  /** One end of a key range. */
  datatype Bound = Included(key: Key) | Excluded(key: Key) | Unbounded

  predicate AboveStart(start: Bound, k: Key) {
    match start
    case Included(s) => AtMost(s, k)
    case Excluded(s) => Less(s, k)
    case Unbounded => true
  }

  predicate BelowEnd(end: Bound, k: Key) {
    match end
    case Included(e) => AtMost(k, e)
    case Excluded(e) => Less(k, e)
    case Unbounded => true
  }

  predicate InRange(start: Bound, end: Bound, k: Key) {
    AboveStart(start, k) && BelowEnd(end, k)
  }

  /** Any key splits all keys in two, on whichever side it falls itself. */
  lemma RangesSplit(cut: Key, k: Key)
    ensures InRange(Unbounded, Unbounded, k)
    ensures InRange(Unbounded, Excluded(cut), k) <==> !InRange(Included(cut), Unbounded, k)
    ensures InRange(Unbounded, Included(cut), k) <==> !InRange(Excluded(cut), Unbounded, k)
    ensures InRange(Unbounded, Included(cut), k) && InRange(Included(cut), Unbounded, k) <==> k == cut
    ensures InRange(Included(cut), Included(cut), k) <==> k == cut
    ensures InRange(Unbounded, Excluded(cut), k) <==> Less(k, cut)
  {
    LessTotal(cut, k);
    if Less(cut, k) {
      LessAsymmetric(cut, k);
    }
    if Less(k, cut) {
      LessAsymmetric(k, cut);
    }
    LessIrreflexive(k);
  }

  // ---------------------------------------------------------------------------
  // Digits.

  function Pow256(width: nat): (p: nat)
    ensures p > 0
  {
    if width == 0 then 1 else 256 * Pow256(width - 1)
  }

  lemma AtLeastOnce(k: int, d: nat)
    requires k >= 1
    ensures k * d >= d
  {
  }

  lemma Quotient(n: nat, d: nat, q: nat, r: nat)
    requires d > 0 && r < d && n == q * d + r
    ensures n / d == q
  {
    var k := n / d - q;
    assert k * d == r - n % d;
    if k >= 1 {
      AtLeastOnce(k, d);
    } else if k <= -1 {
      AtLeastOnce(-k, d);
    }
  }

  lemma DivideTwice(n: nat, p: nat)
    requires p > 0
    ensures n / 256 / p == n / (256 * p)
  {
    var q, low := n / 256 / p, 256 * (n / 256 % p) + n % 256;
    assert 256 * (q * p) == q * (256 * p);
    Quotient(n, 256 * p, q, low);
  }
}
