/** The byte format of journal entries. */
module JournalEntry {
  import opened Bytes

  const TAG_START: Byte := 1
  const TAG_ITEM: Byte := 2
  const TAG_END: Byte := 3
  const TAG_CLEAR: Byte := 4

  /** Trailer of an end marker: "FJL" and the format version. */
  const MAGIC: seq<Byte> := [70, 74, 76, 3]

  const TWO_16: nat := 0x1_0000
  const TWO_32: nat := 0x1_0000_0000
  const TWO_64: nat := 0x1_0000_0000_0000_0000

  /** The compressor and the checksum are outside the model: any functions will do. */
  datatype Codec = Codec(
    compress: seq<Byte> -> seq<Byte>,
    decompress: (seq<Byte>, nat) -> Option<seq<Byte>>,
    checksum: seq<Byte> -> nat)

  ghost predicate Faithful(z: Codec) {
    && (forall v: seq<Byte> :: z.decompress(z.compress(v), |v|) == Some(v))
    && (forall d: seq<Byte> :: z.checksum(d) < TWO_64)
  }

  /** Storing values as they are is one such codec. */
  const PLAIN: Codec := Codec(v => v, (d, n) => Some(d), d => 0)

  lemma PlainFaithful()
    ensures Faithful(PLAIN)
  {
  }

  datatype ValueType = Value | Tombstone | WeakTombstone | Indirection

  datatype Compression = Uncompressed | Lz4

  datatype Entry =
    | Start(itemCount: nat, seqno: nat)
    | Item(ks: nat, key: Key, value: seq<Byte>, valueType: ValueType, compression: Compression)
    | End(checksum: nat)
    | Clear(ks: nat)

  // ---------------------------------------------------------------------------
  // Little-endian integers.

  /** The low `width` bytes of `n`; higher bytes are cut off. */
  function LE(n: nat, width: nat): (bs: seq<Byte>)
    ensures |bs| == width
  {
    if width == 0 then [] else [n % 256] + LE(n / 256, width - 1)
  }

  function FromLE(bs: seq<Byte>): nat {
    if bs == [] then 0 else bs[0] + 256 * FromLE(bs[1..])
  }

  lemma {:induction false} LERoundTrip(n: nat, width: nat)
    requires n < Pow256(width)
    ensures FromLE(LE(n, width)) == n
  {
    if width > 0 {
      LERoundTrip(n / 256, width - 1);
      assert LE(n, width)[1..] == LE(n / 256, width - 1);
    }
  }

  lemma Widths()
    ensures Pow256(2) == TWO_16 && Pow256(4) == TWO_32 && Pow256(8) == TWO_64
  {
    assert Pow256(2) == 256 * Pow256(1);
    assert Pow256(4) == 256 * 256 * Pow256(2);
    assert Pow256(6) == 256 * 256 * Pow256(4);
    assert Pow256(8) == 256 * 256 * Pow256(6);
  }

  // ---------------------------------------------------------------------------
  // Encoding.

  function ValueTag(t: ValueType): Byte {
    match t
    case Value => 0
    case Tombstone => 1
    case WeakTombstone => 2
    case Indirection => 4
  }

  function ValueTypeOf(b: Byte): Option<ValueType> {
    match b
    case 0 => Some(Value)
    case 1 => Some(Tombstone)
    case 2 => Some(WeakTombstone)
    case 4 => Some(Indirection)
    case _ => None
  }

  function CompressionTag(c: Compression): Byte {
    match c
    case Uncompressed => 0
    case Lz4 => 1
  }

  function CompressionOf(b: Byte): Option<Compression> {
    match b
    case 0 => Some(Uncompressed)
    case 1 => Some(Lz4)
    case _ => None
  }

  /** The bytes of a value as they go to disk. */
  function Stored(z: Codec, e: Entry): seq<Byte>
    requires e.Item?
  {
    match e.compression
    case Uncompressed => e.value
    case Lz4 => z.compress(e.value)
  }

  function ItemHeader(z: Codec, e: Entry): (h: seq<Byte>)
    requires e.Item?
    ensures |h| == 21
  {
    [TAG_ITEM, ValueTag(e.valueType), CompressionTag(e.compression)]
    + LE(e.ks, 8) + LE(|e.key|, 2) + LE(|e.value|, 4) + LE(|Stored(z, e)|, 4)
  }

  function Encode(z: Codec, e: Entry): seq<Byte> {
    match e
    case Start(itemCount, seqno) => [TAG_START] + LE(itemCount, 4) + LE(seqno, 8)
    case Item(_, key, _, _, _) => ItemHeader(z, e) + key + Stored(z, e)
    case End(checksum) => [TAG_END] + LE(checksum, 8) + MAGIC
    case Clear(ks) => [TAG_CLEAR] + LE(ks, 8)
  }

  /** The entry's numbers fit the fields that carry them. */
  predicate Fits(z: Codec, e: Entry) {
    match e
    case Start(itemCount, seqno) => itemCount < TWO_32 && seqno < TWO_64
    case Item(ks, key, value, _, _) => ks < TWO_64 && |key| < TWO_16 && |value| < TWO_32 && |Stored(z, e)| < TWO_32
    case End(checksum) => checksum < TWO_64
    case Clear(ks) => ks < TWO_64
  }

  // ---------------------------------------------------------------------------
  // Decoding.

  /** The decoded entry and the number of bytes it took, or a failure of any kind:
      end of input, unknown tag, wrong trailer, failed decompression. */
  datatype Decoded = Decoded(entry: Entry, used: nat) | Broken

  function Decode(z: Codec, d: seq<Byte>): Decoded {
    if d == [] then Broken
    else if d[0] == TAG_START then
      if |d| < 13 then Broken else Decoded(Start(FromLE(d[1..5]), FromLE(d[5..13])), 13)
    else if d[0] == TAG_ITEM then
      DecodeItem(z, d)
    else if d[0] == TAG_END then
      if |d| < 13 || d[9..13] != MAGIC then Broken else Decoded(End(FromLE(d[1..9])), 13)
    else if d[0] == TAG_CLEAR then
      if |d| < 9 then Broken else Decoded(Clear(FromLE(d[1..9])), 9)
    else Broken
  }

  function DecodeItem(z: Codec, d: seq<Byte>): Decoded
    requires d != [] && d[0] == TAG_ITEM
  {
    if |d| < 21 then Broken
    else
      var valueType, compression := ValueTypeOf(d[1]), CompressionOf(d[2]);
      var ks, keyLen, valueLen, storedLen := FromLE(d[3..11]), FromLE(d[11..13]), FromLE(d[13..17]), FromLE(d[17..21]);
      var keyEnd := 21 + keyLen;
      var end := keyEnd + storedLen;
      if valueType.None? || compression.None? || |d| < end then Broken
      else
        var key, stored := d[21..keyEnd], d[keyEnd..end];
        match compression.value
        case Uncompressed => Decoded(Item(ks, key, stored, valueType.value, Uncompressed), end)
        case Lz4 =>
          match z.decompress(stored, valueLen)
          case None => Broken
          case Some(value) => Decoded(Item(ks, key, value, valueType.value, Lz4), end)
  }

  lemma SplitHeader(a: Byte, b: Byte, c: Byte, ks: seq<Byte>, kl: seq<Byte>, vl: seq<Byte>, sl: seq<Byte>, rest: seq<Byte>)
    requires |ks| == 8 && |kl| == 2 && |vl| == 4 && |sl| == 4
    ensures var d := [a, b, c] + ks + kl + vl + sl + rest;
            && |d| == 21 + |rest| && d[0] == a && d[1] == b && d[2] == c
            && d[3..11] == ks && d[11..13] == kl && d[13..17] == vl && d[17..21] == sl && d[21..] == rest
  {
  }

  /** An unsigned field holding a value that fits it reads back. */
  lemma FieldRoundTrip(n: nat, width: nat)
    requires (width == 2 && n < TWO_16) || (width == 4 && n < TWO_32) || (width == 8 && n < TWO_64)
    ensures FromLE(LE(n, width)) == n
  {
    Widths();
    LERoundTrip(n, width);
  }

  lemma ItemFields(z: Codec, e: Entry, tail: seq<Byte>)
    requires e.Item? && Fits(z, e)
    ensures var d := ItemHeader(z, e) + tail;
            && d[0] == TAG_ITEM && ValueTypeOf(d[1]) == Some(e.valueType) && CompressionOf(d[2]) == Some(e.compression)
            && FromLE(d[3..11]) == e.ks && FromLE(d[11..13]) == |e.key| && FromLE(d[13..17]) == |e.value|
            && FromLE(d[17..21]) == |Stored(z, e)| && d[21..] == tail
  {
    hide LE, FromLE, Pow256, Stored;
    var n := |Stored(z, e)|;
    SplitHeader(TAG_ITEM, ValueTag(e.valueType), CompressionTag(e.compression),
                LE(e.ks, 8), LE(|e.key|, 2), LE(|e.value|, 4), LE(n, 4), tail);
    FieldRoundTrip(e.ks, 8);
    FieldRoundTrip(|e.key|, 2);
    FieldRoundTrip(|e.value|, 4);
    FieldRoundTrip(n, 4);
  }

  lemma DecodeItemEncoded(z: Codec, e: Entry, rest: seq<Byte>)
    requires Faithful(z) && e.Item? && Fits(z, e)
    ensures Decode(z, Encode(z, e) + rest) == Decoded(e, |Encode(z, e)|)
  {
    hide LE, FromLE, Pow256, ItemHeader, ValueTypeOf, CompressionOf, ValueTag, CompressionTag;
    var stored := Stored(z, e);
    var d := Encode(z, e) + rest;
    var tail := e.key + stored + rest;
    assert d == ItemHeader(z, e) + tail;
    ItemFields(z, e, tail);
    var keyEnd := 21 + |e.key|;
    assert d[21..keyEnd] == tail[..|e.key|] == e.key;
    assert d[keyEnd..keyEnd + |stored|] == tail[|e.key|..|e.key| + |stored|] == stored;
  }

  lemma DecodeStartEncoded(z: Codec, e: Entry, rest: seq<Byte>)
    requires e.Start? && Fits(z, e)
    ensures Decode(z, Encode(z, e) + rest) == Decoded(e, |Encode(z, e)|)
  {
    hide LE, FromLE, Pow256;
    var d := Encode(z, e) + rest;
    FieldRoundTrip(e.itemCount, 4);
    FieldRoundTrip(e.seqno, 8);
    assert d[1..5] == LE(e.itemCount, 4) && d[5..13] == LE(e.seqno, 8);
  }

  lemma DecodeEndEncoded(z: Codec, e: Entry, rest: seq<Byte>)
    requires e.End? && Fits(z, e)
    ensures Decode(z, Encode(z, e) + rest) == Decoded(e, |Encode(z, e)|)
  {
    hide LE, FromLE, Pow256;
    var d := Encode(z, e) + rest;
    FieldRoundTrip(e.checksum, 8);
    assert d[1..9] == LE(e.checksum, 8) && d[9..13] == MAGIC;
  }

  /** Decoding inverts encoding, whatever follows. */
  lemma DecodeEncoded(z: Codec, e: Entry, rest: seq<Byte>)
    requires Faithful(z) && Fits(z, e)
    ensures Decode(z, Encode(z, e) + rest) == Decoded(e, |Encode(z, e)|)
  {
    hide LE, FromLE, Pow256;
    match e
    case Start(_, _) => DecodeStartEncoded(z, e, rest);
    case Item(_, _, _, _, _) => DecodeItemEncoded(z, e, rest);
    case End(_) => DecodeEndEncoded(z, e, rest);
    case Clear(ks) =>
      FieldRoundTrip(ks, 8);
      assert (Encode(z, e) + rest)[1..9] == LE(ks, 8);
  }

  lemma SlicesAgree(d: seq<Byte>, d': seq<Byte>, n: nat, i: nat, j: nat)
    requires n <= |d| && n <= |d'| && d'[..n] == d[..n] && i <= j <= n
    ensures d[i..j] == d'[i..j]
  {
    assert d[i..j] == d[..n][i..j] && d'[i..j] == d'[..n][i..j];
  }

  /** A successful decode looks only at the bytes it uses. */
  lemma DecodeLocal(z: Codec, d: seq<Byte>, d': seq<Byte>)
    requires Decode(z, d).Decoded?
    requires var n := Decode(z, d).used; n <= |d'| && n <= |d| && d'[..n] == d[..n]
    ensures Decode(z, d') == Decode(z, d)
  {
    var n := Decode(z, d).used;
    forall i, j {:trigger d[i..j]} | 0 <= i <= j <= n
      ensures d[i..j] == d'[i..j]
    {
      SlicesAgree(d, d', n, i, j);
    }
    assert d[0] == d[..n][0] && d'[0] == d'[..n][0];
    if d[0] == TAG_ITEM {
      assert d[1] == d[..n][1] && d'[1] == d'[..n][1] && d[2] == d[..n][2] && d'[2] == d'[..n][2];
    }
  }

  lemma DecodeUses(z: Codec, d: seq<Byte>)
    ensures Decode(z, d).Decoded? ==> 0 < Decode(z, d).used <= |d|
  {
  }

  // ---------------------------------------------------------------------------
  // The format, byte by byte.

  /** The low byte comes first. */
  lemma {:induction false} LEDigits(n: nat, width: nat, i: nat)
    requires i < width
    ensures LE(n, width)[i] == n / Pow256(i) % 256
  {
    if i > 0 {
      LEDigits(n / 256, width - 1, i - 1);
      DivideTwice(n, Pow256(i - 1));
    }
  }

  /** The bytes from `at` on hold `n` as a little-endian number of `width` bytes. */
  predicate Number(d: seq<Byte>, at: nat, n: nat, width: nat) {
    at + width <= |d| && forall i :: 0 <= i < width ==> d[at + i] == n / Pow256(i) % 256
  }

  lemma NumberAt(d: seq<Byte>, at: nat, n: nat, width: nat)
    requires at + width <= |d| && d[at..at + width] == LE(n, width)
    ensures Number(d, at, n, width)
  {
    forall i | 0 <= i < width
      ensures d[at + i] == n / Pow256(i) % 256
    {
      LEDigits(n, width, i);
      assert d[at + i] == d[at..at + width][i];
    }
  }

  /** Tag, numbers and payload of every kind of entry, at their places. */
  lemma MarkerLayout(z: Codec, e: Entry)
    requires !e.Item?
    ensures var d := Encode(z, e);
            match e
            case Start(itemCount, seqno) => |d| == 13 && d[0] == 1 && Number(d, 1, itemCount, 4) && Number(d, 5, seqno, 8)
            case End(checksum) => |d| == 13 && d[0] == 3 && Number(d, 1, checksum, 8) && d[9..] == [70, 74, 76, 3]
            case Clear(ks) => |d| == 9 && d[0] == 4 && Number(d, 1, ks, 8)
            case _ => true
  {
    hide LE, Number;
    var d := Encode(z, e);
    match e {
      case Start(itemCount, seqno) =>
        assert d[1..5] == LE(itemCount, 4) && d[5..13] == LE(seqno, 8);
        NumberAt(d, 1, itemCount, 4);
        NumberAt(d, 5, seqno, 8);
      case End(checksum) =>
        assert d[1..9] == LE(checksum, 8);
        NumberAt(d, 1, checksum, 8);
      case Clear(ks) =>
        assert d[1..9] == LE(ks, 8);
        NumberAt(d, 1, ks, 8);
      case _ =>
    }
  }

  lemma ItemLayout(z: Codec, e: Entry)
    requires e.Item?
    ensures var d, key, stored := Encode(z, e), |e.key|, if e.compression == Lz4 then z.compress(e.value) else e.value;
            && |d| == 21 + key + |stored| && d[0] == 2
            && d[1] == (match e.valueType case Value => 0 case Tombstone => 1 case WeakTombstone => 2 case Indirection => 4)
            && d[2] == (if e.compression == Lz4 then 1 else 0)
            && Number(d, 3, e.ks, 8) && Number(d, 11, key, 2) && Number(d, 13, |e.value|, 4) && Number(d, 17, |stored|, 4)
            && d[21..21 + key] == e.key && d[21 + key..] == stored
  {
    hide LE, Number;
    var d, stored := Encode(z, e), Stored(z, e);
    assert d[3..11] == LE(e.ks, 8) && d[11..13] == LE(|e.key|, 2);
    assert d[13..17] == LE(|e.value|, 4) && d[17..21] == LE(|stored|, 4);
    NumberAt(d, 3, e.ks, 8);
    NumberAt(d, 11, |e.key|, 2);
    NumberAt(d, 13, |e.value|, 4);
    NumberAt(d, 17, |stored|, 4);
  }
}
