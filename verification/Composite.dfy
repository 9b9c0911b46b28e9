/** Wide-row keys as byte strings that sort like the keys. */
module Composite {
  import opened Bytes

  const FORMAT_VERSION: Byte := 1
  const FIELD_TERMINATOR: Byte := 0
  const FIELD_ESCAPE: Byte := 1
  const ESCAPED_ZERO: Byte := 1
  const ESCAPED_ONE: Byte := 2
  const TIMESTAMP_LEN: nat := 8
  const MAX_USER_KEY_LEN: nat := 0xFFFF
  const TWO_63: int := 0x8000_0000_0000_0000
  const TWO_64: int := 0x1_0000_0000_0000_0000

  type I64 = x: int | -0x8000_0000_0000_0000 <= x < 0x8000_0000_0000_0000

  datatype CompositeKey = CompositeKey(row: Key, family: Key, qualifier: Key, visibility: Key, timestamp: I64)

  datatype Error =
    | MissingVersion | UnsupportedVersion | UnterminatedField | UnterminatedEscape | InvalidEscape
    | TimestampLength | TooLong | NotContiguous

  datatype Result<+T> = Ok(value: T) | Err(error: Error)

  // ---------------------------------------------------------------------------
  // Fields.

  function Escape(b: Byte): seq<Byte> {
    if b == FIELD_TERMINATOR then [FIELD_ESCAPE, ESCAPED_ZERO]
    else if b == FIELD_ESCAPE then [FIELD_ESCAPE, ESCAPED_ONE]
    else [b]
  }

  function EncodeField(f: Key): seq<Byte> {
    if f == [] then [FIELD_TERMINATOR] else Escape(f[0]) + EncodeField(f[1..])
  }

  /** A decoded field and the bytes after it. */
  datatype Taken = Taken(field: Key, rest: seq<Byte>)

  function DecodeField(d: seq<Byte>): Result<Taken> {
    if d == [] then Err(UnterminatedField)
    else if d[0] == FIELD_TERMINATOR then Ok(Taken([], d[1..]))
    else if d[0] == FIELD_ESCAPE then
      if |d| == 1 then Err(UnterminatedEscape)
      else if d[1] == ESCAPED_ZERO then Prepend(FIELD_TERMINATOR, DecodeField(d[2..]))
      else if d[1] == ESCAPED_ONE then Prepend(FIELD_ESCAPE, DecodeField(d[2..]))
      else Err(InvalidEscape)
    else Prepend(d[0], DecodeField(d[1..]))
  }

  function Prepend(b: Byte, r: Result<Taken>): Result<Taken> {
    if r.Ok? then Ok(Taken([b] + r.value.field, r.value.rest)) else r
  }

  lemma {:induction false} DecodeFieldEncoded(f: Key, rest: seq<Byte>)
    ensures DecodeField(EncodeField(f) + rest) == Ok(Taken(f, rest))
  {
    var d := EncodeField(f) + rest;
    if f == [] {
      assert d == [FIELD_TERMINATOR] + rest;
    } else {
      var n := |Escape(f[0])|;
      assert d[n..] == EncodeField(f[1..]) + rest;
      assert d[..n] == Escape(f[0]);
      assert d[0] == Escape(f[0])[0];
      assert n == 2 ==> d[1] == Escape(f[0])[1];
      DecodeFieldEncoded(f[1..], rest);
      assert [f[0]] + f[1..] == f;
    }
  }

  /** Whatever decodes is the encoding of what it decodes to. */
  lemma {:induction false} DecodeFieldExact(d: seq<Byte>)
    requires DecodeField(d).Ok?
    ensures d == EncodeField(DecodeField(d).value.field) + DecodeField(d).value.rest
  {
    if d[0] == FIELD_TERMINATOR {
    } else {
      var n := if d[0] == FIELD_ESCAPE then 2 else 1;
      DecodeFieldExact(d[n..]);
      var tail := DecodeField(d[n..]).value;
      var b := DecodeField(d).value.field[0];
      assert DecodeField(d).value.field == [b] + tail.field;
      assert d[..n] == Escape(b);
      assert d == d[..n] + d[n..];
    }
  }

  lemma EscapeOrder(b: Byte, c: Byte, x: seq<Byte>, y: seq<Byte>)
    requires b != c
    ensures Less(Escape(b) + x, Escape(c) + y) <==> b < c
  {
    var p, q := Escape(b) + x, Escape(c) + y;
    assert p[0] == Escape(b)[0] && q[0] == Escape(c)[0];
    if p[0] == q[0] {
      assert p[1] == Escape(b)[1] && q[1] == Escape(c)[1];
      LessAtDifference(p, q, 1);
    }
  }

  lemma TerminatorFirst(b: Byte, x: seq<Byte>, y: seq<Byte>)
    ensures Less([FIELD_TERMINATOR] + x, Escape(b) + y) && !Less(Escape(b) + y, [FIELD_TERMINATOR] + x)
  {
    assert (Escape(b) + y)[0] == Escape(b)[0];
  }

  /** Different fields compare alike encoded or not, whatever follows them. */
  lemma {:induction false} FieldOrder(f: Key, g: Key, a: seq<Byte>, b: seq<Byte>)
    requires f != g
    ensures Less(EncodeField(f) + a, EncodeField(g) + b) <==> Less(f, g)
  {
    hide Escape;
    assert f != [] ==> EncodeField(f) + a == Escape(f[0]) + (EncodeField(f[1..]) + a);
    assert g != [] ==> EncodeField(g) + b == Escape(g[0]) + (EncodeField(g[1..]) + b);
    if f == [] {
      TerminatorFirst(g[0], a, EncodeField(g[1..]) + b);
    } else if g == [] {
      TerminatorFirst(f[0], b, EncodeField(f[1..]) + a);
    } else if f[0] == g[0] {
      assert f == [f[0]] + f[1..] && g == [g[0]] + g[1..];
      LessUnderPrefix(Escape(f[0]), EncodeField(f[1..]) + a, EncodeField(g[1..]) + b);
      FieldOrder(f[1..], g[1..], a, b);
    } else {
      EscapeOrder(f[0], g[0], EncodeField(f[1..]) + a, EncodeField(g[1..]) + b);
    }
  }

  // ---------------------------------------------------------------------------
  // Timestamps.

  /** Big-endian bytes of `n`. */
  function BE(n: nat, width: nat): (bs: seq<Byte>)
    ensures |bs| == width
  {
    if width == 0 then [] else BE(n / 256, width - 1) + [n % 256]
  }

  function FromBE(bs: seq<Byte>): nat {
    if bs == [] then 0 else 256 * FromBE(bs[..|bs| - 1]) + bs[|bs| - 1]
  }

  lemma Pow256Of8()
    ensures Pow256(8) == TWO_64
  {
    assert Pow256(2) == 256 * Pow256(1);
    assert Pow256(4) == 256 * 256 * Pow256(2);
    assert Pow256(6) == 256 * 256 * Pow256(4);
    assert Pow256(8) == 256 * 256 * Pow256(6);
  }

  lemma {:induction false} FromBEOfBE(n: nat, width: nat)
    requires n < Pow256(width)
    ensures FromBE(BE(n, width)) == n
  {
    if width > 0 {
      FromBEOfBE(n / 256, width - 1);
      assert BE(n, width)[..width - 1] == BE(n / 256, width - 1);
    }
  }

  lemma {:induction false} BEOfFromBE(bs: seq<Byte>)
    ensures FromBE(bs) < Pow256(|bs|) && BE(FromBE(bs), |bs|) == bs
  {
    if bs != [] {
      BEOfFromBE(bs[..|bs| - 1]);
    }
  }

  lemma {:induction false} BEOrder(m: nat, n: nat, width: nat)
    requires m < n < Pow256(width)
    ensures Less(BE(m, width), BE(n, width))
  {
    var a, b := BE(m / 256, width - 1), BE(n / 256, width - 1);
    if m / 256 == n / 256 {
      LessUnderPrefix(a, [m % 256], [n % 256]);
    } else {
      BEOrder(m / 256, n / 256, width - 1);
      LessExtends(a, b, [m % 256], [n % 256]);
    }
  }

  lemma {:induction false} LessExtends(a: seq<int>, b: seq<int>, c: seq<int>, d: seq<int>)
    requires |a| == |b| && Less(a, b)
    ensures Less(a + c, b + d)
  {
    if a[0] == b[0] {
      LessExtends(a[1..], b[1..], c, d);
      assert (a + c)[1..] == a[1..] + c && (b + d)[1..] == b[1..] + d;
    }
  }

  /** The 64 bits of a signed number read as an unsigned one. */
  function Bits(t: I64): (u: nat)
    ensures u < TWO_64
  {
    if t < 0 then t + TWO_64 else t
  }

  function FromBits(u: nat): I64
    requires u < TWO_64
  {
    if u >= TWO_63 then u - TWO_64 else u
  }

  /** Exclusive or with the top bit adds or removes it. */
  function FlipTopBit(u: nat): (v: nat)
    requires u < TWO_64
    ensures v < TWO_64
  {
    if u < TWO_63 then u + TWO_63 else u - TWO_63
  }

  /** Bitwise complement of 64 bits. */
  function Complement(u: nat): (v: nat)
    requires u < TWO_64
    ensures v < TWO_64
  {
    TWO_64 - 1 - u
  }

  function EncodeTimestamp(t: I64): seq<Byte> {
    BE(Complement(FlipTopBit(Bits(t))), TIMESTAMP_LEN)
  }

  function DecodeTimestamp(bs: seq<Byte>): I64
    requires |bs| == TIMESTAMP_LEN
  {
    BEOfFromBE(bs);
    Pow256Of8();
    FromBits(FlipTopBit(Complement(FromBE(bs))))
  }

  lemma TimestampRoundTrip(t: I64)
    ensures DecodeTimestamp(EncodeTimestamp(t)) == t
  {
    Pow256Of8();
    FromBEOfBE(Complement(FlipTopBit(Bits(t))), TIMESTAMP_LEN);
  }

  lemma TimestampExact(bs: seq<Byte>)
    requires |bs| == TIMESTAMP_LEN
    ensures EncodeTimestamp(DecodeTimestamp(bs)) == bs
  {
    BEOfFromBE(bs);
    Pow256Of8();
  }

  /** Newer timestamps sort first. */
  lemma TimestampOrder(s: I64, t: I64)
    ensures Less(EncodeTimestamp(s), EncodeTimestamp(t)) <==> t < s
  {
    Pow256Of8();
    var m, n := Complement(FlipTopBit(Bits(s))), Complement(FlipTopBit(Bits(t)));
    if m < n {
      BEOrder(m, n, TIMESTAMP_LEN);
    } else if n < m {
      BEOrder(n, m, TIMESTAMP_LEN);
      LessAsymmetric(EncodeTimestamp(t), EncodeTimestamp(s));
    } else {
      LessIrreflexive(EncodeTimestamp(s));
    }
  }

  /** The highest byte comes first. */
  lemma {:induction false} BEDigits(n: nat, width: nat, i: nat)
    requires i < width
    ensures BE(n, width)[width - 1 - i] == n / Pow256(i) % 256
  {
    if i > 0 {
      BEDigits(n / 256, width - 1, i - 1);
      DivideTwice(n, Pow256(i - 1));
    }
  }

  /** A timestamp is stored as its distance from the latest one, highest byte first. */
  lemma TimestampFormat(t: I64, i: nat)
    requires i < 8
    ensures |EncodeTimestamp(t)| == 8 && EncodeTimestamp(t)[7 - i] == (0x7FFF_FFFF_FFFF_FFFF - t) / Pow256(i) % 256
  {
    BEDigits(Complement(FlipTopBit(Bits(t))), 8, i);
  }

  // ---------------------------------------------------------------------------
  // Whole keys.

  function EncodeFields(fs: seq<Key>): seq<Byte> {
    if fs == [] then [] else EncodeField(fs[0]) + EncodeFields(fs[1..])
  }

  function Fields(k: CompositeKey): seq<Key> {
    [k.row, k.family, k.qualifier, k.visibility]
  }

  /** The encoding before its length is checked. */
  function KeyBytes(k: CompositeKey): seq<Byte> {
    [FORMAT_VERSION] + (EncodeFields(Fields(k)) + EncodeTimestamp(k.timestamp))
  }

  function Encode(k: CompositeKey): Result<Key> {
    if |KeyBytes(k)| > MAX_USER_KEY_LEN then Err(TooLong) else Ok(KeyBytes(k))
  }

  /** Takes `n` fields off the front. */
  function DecodeFields(d: seq<Byte>, n: nat): Result<(seq<Key>, seq<Byte>)>
    decreases n
  {
    if n == 0 then Ok(([], d))
    else
      match DecodeField(d)
      case Err(error) => Err(error)
      case Ok(taken) =>
        match DecodeFields(taken.rest, n - 1)
        case Err(error) => Err(error)
        case Ok(more) => Ok(([taken.field] + more.0, more.1))
  }

  lemma {:induction false} DecodeFieldsCount(d: seq<Byte>, n: nat)
    ensures DecodeFields(d, n).Ok? ==> |DecodeFields(d, n).value.0| == n
    decreases n
  {
    if n > 0 && DecodeField(d).Ok? {
      DecodeFieldsCount(DecodeField(d).value.rest, n - 1);
    }
  }

  function Decode(d: seq<Byte>): Result<CompositeKey> {
    if d == [] then Err(MissingVersion)
    else if d[0] != FORMAT_VERSION then Err(UnsupportedVersion)
    else
      match DecodeFields(d[1..], 4)
      case Err(error) => Err(error)
      case Ok(taken) =>
        if |taken.1| != TIMESTAMP_LEN then Err(TimestampLength)
        else
          DecodeFieldsCount(d[1..], 4);
          Ok(CompositeKey(taken.0[0], taken.0[1], taken.0[2], taken.0[3], DecodeTimestamp(taken.1)))
  }

  lemma {:induction false} DecodeFieldsEncoded(fs: seq<Key>, rest: seq<Byte>)
    ensures DecodeFields(EncodeFields(fs) + rest, |fs|) == Ok((fs, rest))
  {
    if fs == [] {
      assert EncodeFields(fs) + rest == rest;
    } else {
      assert EncodeFields(fs) + rest == EncodeField(fs[0]) + (EncodeFields(fs[1..]) + rest);
      DecodeFieldEncoded(fs[0], EncodeFields(fs[1..]) + rest);
      DecodeFieldsEncoded(fs[1..], rest);
      assert [fs[0]] + fs[1..] == fs;
    }
  }

  lemma {:induction false} DecodeFieldsExact(d: seq<Byte>, n: nat)
    requires DecodeFields(d, n).Ok?
    ensures var taken := DecodeFields(d, n).value; d == EncodeFields(taken.0) + taken.1
    decreases n
  {
    if n > 0 {
      var first := DecodeField(d).value;
      var more := DecodeFields(first.rest, n - 1).value;
      DecodeFieldExact(d);
      DecodeFieldsExact(first.rest, n - 1);
      assert ([first.field] + more.0)[1..] == more.0;
    }
  }

  /** Decoding inverts encoding, on the bytes even where the length limit refuses them. */
  lemma DecodeEncode(k: CompositeKey)
    ensures Decode(KeyBytes(k)) == Ok(k)
    ensures Encode(k).Ok? ==> Decode(Encode(k).value) == Ok(k)
  {
    DecodeFieldsEncoded(Fields(k), EncodeTimestamp(k.timestamp));
    TimestampRoundTrip(k.timestamp);
    assert KeyBytes(k)[1..] == EncodeFields(Fields(k)) + EncodeTimestamp(k.timestamp);
  }

  /** Every accepted byte string is an encoding, so within the limit it encodes back to itself. */
  lemma EncodeDecode(d: seq<Byte>)
    requires Decode(d).Ok?
    ensures KeyBytes(Decode(d).value) == d
    ensures Encode(Decode(d).value) == if |d| <= MAX_USER_KEY_LEN then Ok(d) else Err(TooLong)
  {
    var taken := DecodeFields(d[1..], 4).value;
    DecodeFieldsCount(d[1..], 4);
    DecodeFieldsExact(d[1..], 4);
    assert Fields(Decode(d).value) == taken.0;
    TimestampExact(taken.1);
  }

  /** Row, family, qualifier and visibility ascending, then the newer timestamp first. */
  predicate KeyLess(j: CompositeKey, k: CompositeKey) {
    if j.row != k.row then Less(j.row, k.row)
    else if j.family != k.family then Less(j.family, k.family)
    else if j.qualifier != k.qualifier then Less(j.qualifier, k.qualifier)
    else if j.visibility != k.visibility then Less(j.visibility, k.visibility)
    else k.timestamp < j.timestamp
  }

  predicate FieldsLess(fs: seq<Key>, gs: seq<Key>, tie: bool)
    requires |fs| == |gs|
  {
    if fs == [] then tie
    else if fs[0] != gs[0] then Less(fs[0], gs[0])
    else FieldsLess(fs[1..], gs[1..], tie)
  }

  lemma {:induction false} FieldsOrder(fs: seq<Key>, gs: seq<Key>, a: seq<Byte>, b: seq<Byte>)
    requires |fs| == |gs|
    ensures Less(EncodeFields(fs) + a, EncodeFields(gs) + b) <==> FieldsLess(fs, gs, Less(a, b))
  {
    if fs == [] {
      assert EncodeFields(fs) + a == a && EncodeFields(gs) + b == b;
    } else {
      var x, y := EncodeFields(fs[1..]) + a, EncodeFields(gs[1..]) + b;
      assert EncodeFields(fs) + a == EncodeField(fs[0]) + x && EncodeFields(gs) + b == EncodeField(gs[0]) + y;
      if fs[0] != gs[0] {
        FieldOrder(fs[0], gs[0], x, y);
      } else {
        LessUnderPrefix(EncodeField(fs[0]), x, y);
        FieldsOrder(fs[1..], gs[1..], a, b);
      }
    }
  }

  /** Comparing encoded keys byte by byte is comparing the keys. */
  lemma OrderEmbedding(j: CompositeKey, k: CompositeKey)
    ensures Less(KeyBytes(j), KeyBytes(k)) <==> KeyLess(j, k)
  {
    hide EncodeTimestamp;
    var a, b := EncodeTimestamp(j.timestamp), EncodeTimestamp(k.timestamp);
    LessUnderPrefix([FORMAT_VERSION], EncodeFields(Fields(j)) + a, EncodeFields(Fields(k)) + b);
    FieldsOrder(Fields(j), Fields(k), a, b);
    TimestampOrder(j.timestamp, k.timestamp);
    FieldsLessIsKeyLess(j, k, Less(a, b));
  }

  lemma FieldsLessIsKeyLess(j: CompositeKey, k: CompositeKey, tie: bool)
    requires tie <==> k.timestamp < j.timestamp
    ensures FieldsLess(Fields(j), Fields(k), tie) <==> KeyLess(j, k)
  {
    FieldsLessCons(j.visibility, k.visibility, [], [], tie);
    FieldsLessCons(j.qualifier, k.qualifier, [j.visibility], [k.visibility], tie);
    FieldsLessCons(j.family, k.family, [j.qualifier, j.visibility], [k.qualifier, k.visibility], tie);
    FieldsLessCons(j.row, k.row, [j.family, j.qualifier, j.visibility], [k.family, k.qualifier, k.visibility], tie);
  }

  lemma FieldsLessCons(f: Key, g: Key, fs: seq<Key>, gs: seq<Key>, tie: bool)
    requires |fs| == |gs|
    ensures FieldsLess([f] + fs, [g] + gs, tie) <==> if f != g then Less(f, g) else FieldsLess(fs, gs, tie)
  {
  }

  /** Distinct keys have distinct encodings. */
  lemma EncodingInjective(j: CompositeKey, k: CompositeKey)
    requires KeyBytes(j) == KeyBytes(k)
    ensures j == k
  {
    DecodeEncode(j);
    DecodeEncode(k);
  }

  // ---------------------------------------------------------------------------
  // Prefix ranges.

  datatype CompositePrefix = CompositePrefix(row: Option<Key>, family: Option<Key>, qualifier: Option<Key>, visibility: Option<Key>)

  /** The supplied fields, which must be a leading run. */
  function Supplied(p: CompositePrefix): Result<seq<Key>> {
    match (p.row, p.family, p.qualifier, p.visibility)
    case (None, None, None, None) => Ok([])
    case (Some(r), None, None, None) => Ok([r])
    case (Some(r), Some(f), None, None) => Ok([r, f])
    case (Some(r), Some(f), Some(q), None) => Ok([r, f, q])
    case (Some(r), Some(f), Some(q), Some(v)) => Ok([r, f, q, v])
    case _ => Err(NotContiguous)
  }

  /** The smallest string above every extension of `p`, if there is one. */
  function Successor(p: Key): Bound {
    if p == [] then Unbounded
    else if p[|p| - 1] < 255 then Excluded(p[..|p| - 1] + [p[|p| - 1] + 1])
    else Successor(p[..|p| - 1])
  }

  function PrefixToRange(p: Key): (Bound, Bound) {
    if p == [] then (Unbounded, Unbounded) else (Included(p), Successor(p))
  }

  function Range(p: CompositePrefix): Result<(Bound, Bound)> {
    match Supplied(p)
    case Err(error) => Err(error)
    case Ok(fs) =>
      var prefix := [FORMAT_VERSION] + EncodeFields(fs);
      if |prefix| > MAX_USER_KEY_LEN then Err(TooLong) else Ok(PrefixToRange(prefix))
  }

  lemma {:induction false} PrefixAtMost(p: seq<int>, d: seq<int>)
    requires p <= d
    ensures AtMost(p, d)
  {
    if p == [] {
    } else {
      assert p[1..] <= d[1..];
      assert p == [p[0]] + p[1..] && d == [d[0]] + d[1..];
      PrefixAtMost(p[1..], d[1..]);
    }
  }

  /** At or above `p` without extending it means differing upwards at some position of `p`. */
  lemma {:induction false} AboveWithoutExtending(p: seq<int>, d: seq<int>) returns (i: nat)
    requires AtMost(p, d) && !(p <= d)
    ensures i < |p| && i < |d| && p[..i] == d[..i] && p[i] < d[i]
  {
    if p[0] < d[0] {
      i := 0;
    } else {
      assert p == [p[0]] + p[1..] && d == [d[0]] + d[1..];
      var i' := AboveWithoutExtending(p[1..], d[1..]);
      i := i' + 1;
      assert p[..i] == [p[0]] + p[1..][..i'] && d[..i] == [d[0]] + d[1..][..i'];
    }
  }

  /** Extensions of a prefix lie below its successor. */
  lemma {:induction false} ExtensionBelow(p: Key, d: Key)
    requires p <= d
    ensures BelowEnd(Successor(p), d)
  {
    if p != [] {
      var n := |p| - 1;
      if p[n] < 255 {
        LessAtDifference(d, p[..n] + [p[n] + 1], n);
      } else {
        ExtensionBelow(p[..n], d);
      }
    }
  }

  /** What differs upwards from a prefix within it does not lie below its successor. */
  lemma {:induction false} DifferenceNotBelow(p: Key, d: Key, i: nat)
    requires i < |p| && i < |d| && p[..i] == d[..i] && p[i] < d[i]
    ensures !BelowEnd(Successor(p), d)
  {
    var n := |p| - 1;
    if p[n] == 255 {
      assert i < n;
      assert p[..n][..i] == p[..i];
      DifferenceNotBelow(p[..n], d, i);
    } else {
      var end := p[..n] + [p[n] + 1];
      if i < n {
        assert end[..i] == p[..i];
        LessAtDifference(d, end, i);
      } else {
        LastNotBelow(p[..n], p[n] + 1, d);
      }
    }
  }

  lemma LastNotBelow(p: Key, b: Byte, d: Key)
    requires p <= d && |p| < |d| && b <= d[|p|]
    ensures !Less(d, p + [b])
  {
    var n := |p|;
    assert d == p + d[n..];
    LessUnderPrefix(p, d[n..], [b]);
  }

  /** The range holds exactly the extensions of the prefix. */
  lemma PrefixRangeExact(p: Key, d: Key)
    ensures InRange(PrefixToRange(p).0, PrefixToRange(p).1, d) <==> p <= d
  {
    if p <= d {
      PrefixAtMost(p, d);
      ExtensionBelow(p, d);
    } else if AtMost(p, d) {
      var i := AboveWithoutExtending(p, d);
      DifferenceNotBelow(p, d, i);
    }
  }

  lemma LeadingField(f: Key, x: seq<Byte>, g: Key, y: seq<Byte>)
    ensures EncodeField(f) + x <= EncodeField(g) + y <==> f == g && x <= y
  {
    hide EncodeField, DecodeField;
    var d, m := EncodeField(g) + y, |EncodeField(f)|;
    if EncodeField(f) + x <= d {
      assert d[..m] == (EncodeField(f) + x)[..m] == EncodeField(f);
      assert d == EncodeField(f) + d[m..];
      DecodeFieldEncoded(f, d[m..]);
      DecodeFieldEncoded(g, y);
      assert x == (EncodeField(f) + x)[m..] <= d[m..];
    }
  }

  /** Encoded fields are prefix-free, so leading bytes give away leading fields. */
  lemma {:induction false} LeadingFields(fs: seq<Key>, gs: seq<Key>, rest: seq<Byte>)
    requires |fs| <= |gs|
    ensures EncodeFields(fs) <= EncodeFields(gs) + rest <==> fs <= gs
  {
    if fs != [] {
      var d := EncodeFields(gs) + rest;
      var y := EncodeFields(gs[1..]) + rest;
      assert d == EncodeField(gs[0]) + y;
      LeadingField(fs[0], EncodeFields(fs[1..]), gs[0], y);
      LeadingFields(fs[1..], gs[1..], rest);
      assert fs == [fs[0]] + fs[1..] && gs == [gs[0]] + gs[1..];
    }
  }

  /** The key agrees with every supplied field. */
  predicate Matches(p: CompositePrefix, k: CompositeKey) {
    && (p.row.Some? ==> p.row.value == k.row) && (p.family.Some? ==> p.family.value == k.family)
    && (p.qualifier.Some? ==> p.qualifier.value == k.qualifier)
    && (p.visibility.Some? ==> p.visibility.value == k.visibility)
  }

  lemma SuppliedMatches(p: CompositePrefix, k: CompositeKey)
    requires Supplied(p).Ok?
    ensures |Supplied(p).value| <= 4 && (Supplied(p).value <= Fields(k) <==> Matches(p, k))
  {
    var fs, gs := Supplied(p).value, Fields(k);
    assert fs <= gs <==> forall i :: 0 <= i < |fs| ==> fs[i] == gs[i];
    assert |fs| > 0 ==> fs[0] == p.row.value;
    assert |fs| > 1 ==> fs[1] == p.family.value;
    assert |fs| > 2 ==> fs[2] == p.qualifier.value;
    assert |fs| > 3 ==> fs[3] == p.visibility.value;
  }

  /** An encoded key lies in a prefix's range exactly when its leading fields are the supplied
      ones. */
  lemma RangeExact(p: CompositePrefix, k: CompositeKey)
    requires Range(p).Ok?
    ensures InRange(Range(p).value.0, Range(p).value.1, KeyBytes(k)) <==> Matches(p, k)
  {
    hide PrefixToRange, InRange, EncodeTimestamp;
    var fs := Supplied(p).value;
    var prefix := [FORMAT_VERSION] + EncodeFields(fs);
    PrefixRangeExact(prefix, KeyBytes(k));
    SuppliedMatches(p, k);
    LeadingFields(fs, Fields(k), EncodeTimestamp(k.timestamp));
    assert prefix <= KeyBytes(k) <==> EncodeFields(fs) <= EncodeFields(Fields(k)) + EncodeTimestamp(k.timestamp) by {
      assert prefix[1..] == EncodeFields(fs) && KeyBytes(k)[1..] == EncodeFields(Fields(k)) + EncodeTimestamp(k.timestamp);
    }
  }

  // ---------------------------------------------------------------------------
  // The loops.

  /** The encoding of a field without its terminator. */
  function Escaped(f: Key): seq<Byte> {
    if f == [] then [] else Escape(f[0]) + Escaped(f[1..])
  }

  lemma {:induction false} EscapedSnoc(f: Key, b: Byte)
    ensures Escaped(f + [b]) == Escaped(f) + Escape(b)
  {
    if f == [] {
      assert f + [b] == [b];
      assert Escaped([b]) == Escape(b) + Escaped([]);
    } else {
      EscapedSnoc(f[1..], b);
      assert (f + [b])[1..] == f[1..] + [b];
    }
  }

  lemma {:induction false} EscapedThenTerminated(f: Key)
    ensures EncodeField(f) == Escaped(f) + [FIELD_TERMINATOR]
  {
    if f != [] {
      EscapedThenTerminated(f[1..]);
    }
  }

  /** Appends an encoded field. */
  method WriteField(field: Key, encoded: seq<Byte>) returns (encoded': seq<Byte>)
    ensures encoded' == encoded + EncodeField(field)
  {
    encoded' := encoded;
    for i := 0 to |field|
      invariant encoded' == encoded + Escaped(field[..i])
    {
      EscapedSnoc(field[..i], field[i]);
      assert field[..i + 1] == field[..i] + [field[i]];
      assert encoded + Escaped(field[..i + 1]) == encoded' + Escape(field[i]);
      if field[i] == FIELD_TERMINATOR {
        encoded' := encoded' + [FIELD_ESCAPE, ESCAPED_ZERO];
      } else if field[i] == FIELD_ESCAPE {
        encoded' := encoded' + [FIELD_ESCAPE, ESCAPED_ONE];
      } else {
        encoded' := encoded' + [field[i]];
      }
    }
    assert field[..|field|] == field;
    EscapedThenTerminated(field);
    encoded' := encoded' + [FIELD_TERMINATOR];
  }

  /** Version byte and encoded fields. */
  method WritePrefix(fields: seq<Key>) returns (encoded: seq<Byte>)
    ensures encoded == [FORMAT_VERSION] + EncodeFields(fields)
  {
    encoded := [FORMAT_VERSION];
    assert fields[0..] == fields;
    for i := 0 to |fields|
      invariant encoded + EncodeFields(fields[i..]) == [FORMAT_VERSION] + EncodeFields(fields)
    {
      assert fields[i..][0] == fields[i] && fields[i..][1..] == fields[i + 1..];
      encoded := WriteField(fields[i], encoded);
    }
  }

  function PrependAll(f: Key, r: Result<Taken>): Result<Taken> {
    if r.Ok? then Ok(Taken(f + r.value.field, r.value.rest)) else r
  }

  /** Reads one field off the front. */
  method ReadField(d: seq<Byte>) returns (r: Result<Taken>)
    ensures r == DecodeField(d)
  {
    var remaining := d;
    var decoded: Key := [];
    assert DecodeField(d).Ok? ==> [] + DecodeField(d).value.field == DecodeField(d).value.field;
    while true
      invariant DecodeField(d) == PrependAll(decoded, DecodeField(remaining))
      decreases |remaining|
    {
      if remaining == [] {
        return Err(UnterminatedField);
      }
      var b, tail := remaining[0], remaining[1..];
      if b == FIELD_TERMINATOR {
        assert decoded + [] == decoded;
        return Ok(Taken(decoded, tail));
      } else if b == FIELD_ESCAPE {
        if tail == [] {
          return Err(UnterminatedEscape);
        }
        assert remaining[2..] == tail[1..];
        if tail[0] == ESCAPED_ZERO {
          Regroup(decoded, FIELD_TERMINATOR, DecodeField(tail[1..]));
          decoded := decoded + [FIELD_TERMINATOR];
        } else if tail[0] == ESCAPED_ONE {
          Regroup(decoded, FIELD_ESCAPE, DecodeField(tail[1..]));
          decoded := decoded + [FIELD_ESCAPE];
        } else {
          return Err(InvalidEscape);
        }
        remaining := tail[1..];
      } else {
        Regroup(decoded, b, DecodeField(tail));
        decoded := decoded + [b];
        remaining := tail;
      }
    }
  }

  lemma Regroup(f: Key, b: Byte, r: Result<Taken>)
    ensures PrependAll(f, Prepend(b, r)) == PrependAll(f + [b], r)
  {
    if r.Ok? {
      assert f + ([b] + r.value.field) == f + [b] + r.value.field;
    }
  }

  // ---------------------------------------------------------------------------
  // The format of fields, and what is wrong with bytes that do not decode.

  /** Zeros and ones are escaped by a one, everything else stands for itself, and a zero ends
      the field. */
  lemma FieldFormat(b: Byte, f: Key)
    ensures EncodeField([]) == [0]
    ensures EncodeField([b] + f) == (if b == 0 then [1, 1] else if b == 1 then [1, 2] else [b]) + EncodeField(f)
  {
    assert ([b] + f)[1..] == f;
  }

  lemma {:induction false} DecodePast(f: Key, d: seq<Byte>)
    ensures DecodeField(d).Err? ==> DecodeField(Escaped(f) + d) == DecodeField(d)
  {
    if f == [] {
      assert Escaped(f) + d == d;
    } else {
      var rest := Escaped(f[1..]) + d;
      DecodePast(f[1..], d);
      assert Escaped(f) + d == Escape(f[0]) + rest;
      var whole, n := Escape(f[0]) + rest, |Escape(f[0])|;
      assert whole[0] == Escape(f[0])[0] && whole[n..] == rest;
      assert n == 2 ==> whole[1] == Escape(f[0])[1];
    }
  }

  /** After any escaped bytes: running out of bytes, running out of them inside an escape, and
      an escape that is none, are told apart. */
  lemma FieldErrors(f: Key, b: Byte, rest: seq<Byte>)
    ensures DecodeField(Escaped(f)) == Err(UnterminatedField)
    ensures DecodeField(Escaped(f) + [1]) == Err(UnterminatedEscape)
    ensures b != 1 && b != 2 ==> DecodeField(Escaped(f) + ([1, b] + rest)) == Err(InvalidEscape)
  {
    DecodePast(f, []);
    assert Escaped(f) + [] == Escaped(f);
    DecodePast(f, [1]);
    DecodePast(f, [1, b] + rest);
  }

  /** What is wrong with a key that does not decode: no version byte, another version, a broken
      field, or not eight bytes after the fourth field. */
  lemma KeyErrors(version: Byte, fs: seq<Key>, rest: seq<Byte>)
    requires |fs| <= 4
    ensures Decode([]) == Err(MissingVersion)
    ensures version != 1 ==> Decode([version] + rest) == Err(UnsupportedVersion)
    ensures |fs| < 4 && DecodeField(rest).Err? ==> Decode([1] + (EncodeFields(fs) + rest)) == Err(DecodeField(rest).error)
    ensures |fs| == 4 && |rest| != 8 ==> Decode([1] + (EncodeFields(fs) + rest)) == Err(TimestampLength)
  {
    hide DecodeField, DecodeTimestamp, EncodeFields;
    var d := [1] + (EncodeFields(fs) + rest);
    assert d[1..] == EncodeFields(fs) + rest;
    if |fs| < 4 && DecodeField(rest).Err? {
      FieldsFail(fs, rest, 4);
    }
    DecodeFieldsEncoded(fs, rest);
  }

  lemma {:induction false} FieldsFail(fs: seq<Key>, rest: seq<Byte>, n: nat)
    requires |fs| < n && DecodeField(rest).Err?
    ensures DecodeFields(EncodeFields(fs) + rest, n) == Err(DecodeField(rest).error)
    decreases n
  {
    hide DecodeField;
    if fs == [] {
      assert EncodeFields(fs) + rest == rest;
    } else {
      assert EncodeFields(fs) + rest == EncodeField(fs[0]) + (EncodeFields(fs[1..]) + rest);
      DecodeFieldEncoded(fs[0], EncodeFields(fs[1..]) + rest);
      FieldsFail(fs[1..], rest, n - 1);
    }
  }

  /** How many bytes of a field need escaping. */
  function LowBytes(f: Key): nat {
    if f == [] then 0 else (if f[0] <= 1 then 1 else 0) + LowBytes(f[1..])
  }

  lemma {:induction false} FieldLength(f: Key)
    ensures |EncodeField(f)| == |f| + LowBytes(f) + 1
  {
    if f != [] {
      FieldLength(f[1..]);
    }
  }

  /** A key is refused exactly when its fields, with one byte more for every zero and one in
      them, leave no room for the other thirteen bytes. */
  lemma LengthExact(k: CompositeKey)
    ensures var n := |k.row| + LowBytes(k.row) + |k.family| + LowBytes(k.family)
                     + |k.qualifier| + LowBytes(k.qualifier) + |k.visibility| + LowBytes(k.visibility);
            |KeyBytes(k)| == n + 13 && Encode(k) == if n + 13 > 65535 then Err(TooLong) else Ok(KeyBytes(k))
  {
    hide EncodeField, LowBytes;
    FieldLength(k.row);
    FieldLength(k.family);
    FieldLength(k.qualifier);
    FieldLength(k.visibility);
    FourFields(k);
  }

  lemma FourFields(k: CompositeKey)
    ensures EncodeFields(Fields(k)) ==
            EncodeField(k.row) + (EncodeField(k.family) + (EncodeField(k.qualifier) + EncodeField(k.visibility)))
  {
    hide EncodeField;
    var fs := Fields(k);
    assert fs[1..][1..] == fs[2..] && fs[2..][1..] == fs[3..] && fs[3..][1..] == fs[4..] == [];
    assert EncodeFields(fs[3..]) == EncodeField(k.visibility) + [];
    assert EncodeFields(fs[2..]) == EncodeField(k.qualifier) + EncodeFields(fs[3..]);
    assert EncodeFields(fs[1..]) == EncodeField(k.family) + EncodeFields(fs[2..]);
  }

  /** The length of encoded fields. */
  function FieldsLength(fs: seq<Key>): nat {
    if fs == [] then 0 else |fs[0]| + LowBytes(fs[0]) + 1 + FieldsLength(fs[1..])
  }

  lemma {:induction false} EncodedLength(fs: seq<Key>)
    ensures |EncodeFields(fs)| == FieldsLength(fs)
  {
    hide EncodeField, LowBytes;
    if fs != [] {
      FieldLength(fs[0]);
      EncodedLength(fs[1..]);
    }
  }

  /** A prefix is refused when a field is supplied after one that is not, and otherwise exactly
      when its fields with their escapes and terminators leave no room for the version. */
  lemma RangeErrors(p: CompositePrefix)
    ensures Range(p) == Err(NotContiguous) <==>
            || (p.row.None? && (p.family.Some? || p.qualifier.Some? || p.visibility.Some?))
            || (p.family.None? && (p.qualifier.Some? || p.visibility.Some?))
            || (p.qualifier.None? && p.visibility.Some?)
    ensures Supplied(p).Ok? ==> (Range(p).Err? <==> Range(p) == Err(TooLong)) && (Range(p).Err? <==> FieldsLength(Supplied(p).value) >= 65535)
  {
    if Supplied(p).Ok? {
      EncodedLength(Supplied(p).value);
    }
  }
}
