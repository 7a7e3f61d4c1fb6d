/**
 * The binary wire format of hstore and the binary decoders' pair loop, as pure functions.
 *
 * A value is a big-endian int32 pair count followed, for each pair, by an int32 key length,
 * the key bytes, and an int32 value length followed by the value bytes, or -1 for NULL.
 * The encoders write Go's `int32(len(...))`, which wraps for lengths of 2^31 or more.
 *
 * The decoder as written does not check that a value's bytes are present before slicing
 * them out, so a truncated value makes it panic; `checked` switches on the missing check.
 */
module BinaryFormat {
  import opened Wrappers
  import opened Bytes
  import opened HstoreValues
  import opened HstoreErrors

  // ---------------------------------------------------------------------------------------
  // Writing

  /** One pair: the length-prefixed key, then the length-prefixed value or the length -1. */
  function EntryBinary(e: Entry): (r: Bytes)
    ensures |r| == 8 + |e.0| + (if e.1.Some? then |e.1.value| else 0)
  {
    Be32(Int32(|e.0|)) + e.0 + ValueBinary(e.1)
  }

  /** A value: its length and bytes, or the length -1 alone for NULL. */
  function ValueBinary(v: Option<Bytes>): (r: Bytes)
    ensures |r| == 4 + (if v.Some? then |v.value| else 0)
  {
    match v
    case None => Be32(-1)
    case Some(s) => Be32(Int32(|s|)) + s
  }

  /** The pairs of `es`, in order. */
  function EntriesBinary(es: seq<Entry>): Bytes
    decreases |es|
  {
    if |es| == 0 then [] else EntryBinary(es[0]) + EntriesBinary(es[1..])
  }

  /** A whole value: the pair count, then the pairs. */
  function Encoded(es: seq<Entry>): Bytes {
    Be32(Int32(|es|)) + EntriesBinary(es)
  }

  /** The bytes each pair takes: eight for the two length fields, then its key and value. */
  function PayloadSize(es: seq<Entry>): nat
    decreases |es|
  {
    if |es| == 0 then 0
    else 8 + |es[0].0| + (if es[0].1.Some? then |es[0].1.value| else 0) + PayloadSize(es[1..])
  }

  /** The encoded length is four bytes of pair count plus the size of every pair. */
  lemma {:induction false} EncodedSize(es: seq<Entry>)
    ensures |Encoded(es)| == 4 + PayloadSize(es)
  {
    EntriesSize(es);
  }

  lemma {:induction false} EntriesSize(es: seq<Entry>)
    ensures |EntriesBinary(es)| == PayloadSize(es)
    decreases |es|
  {
    if |es| > 0 {
      EntriesSize(es[1..]);
    }
  }

  /** Appending a pair appends its bytes. */
  lemma {:induction false} EntriesBinarySnoc(es: seq<Entry>, e: Entry)
    ensures EntriesBinary(es + [e]) == EntriesBinary(es) + EntryBinary(e)
    decreases |es|
  {
    if |es| == 0 {
      assert es + [e] == [e];
      assert EntriesBinary([e]) == EntryBinary(e) + EntriesBinary([]);
    } else {
      assert (es + [e])[0] == es[0] && (es + [e])[1..] == es[1..] + [e];
      EntriesBinarySnoc(es[1..], e);
    }
  }

  /** The encoding of the first `i + 1` pairs extends that of the first `i`. */
  lemma EntriesBinaryPrefix(es: seq<Entry>, i: nat)
    requires i < |es|
    ensures EntriesBinary(es[..i + 1]) == EntriesBinary(es[..i]) + EntryBinary(es[i])
  {
    assert es[..i + 1] == es[..i] + [es[i]];
    EntriesBinarySnoc(es[..i], es[i]);
  }

  /** A pair whose key and value lengths survive `int32(len(...))` unchanged. */
  predicate Fits(e: Entry) {
    |e.0| < TWO_31 && (e.1.Some? ==> |e.1.value| < TWO_31)
  }

  predicate AllFit(es: seq<Entry>) {
    forall i :: 0 <= i < |es| ==> Fits(es[i])
  }

  // ---------------------------------------------------------------------------------------
  // Reading

  /** The Go runtime panics the binary decoders can run into. */
  datatype Panic =
    /** A negative key length passes the length check, then the slice bounds are inverted. */
    | NegativeKeyLength
    /** A value length that runs past the end of the input is sliced without a check. */
    | ValueOutOfRange
    /** `make([]string, pairCount)` with a negative pair count (compatible decoder only). */
    | NegativeCount

  /** What a decoder does with its input: a value, an error return, or a panic. */
  datatype Outcome<+T> = Decoded(value: T) | Failed(error: Error) | Panicked(reason: Panic)

  /** What one pass of the pair loop reads: a pair and where the next one starts, or the end. */
  datatype PairRead = Read(key: Bytes, value: Option<Bytes>, next: nat) | Stop(outcome: Outcome<Logical>)

  /**
   * One pass of the binary decoders' pair loop from position `rp` of `src`: the key length,
   * the key, the value length and, unless it is negative (NULL), the value. With `checked`
   * false it is the code as written; with `checked` true a value running past the end is an
   * "hstore incomplete" error instead of a panic.
   */
  function ReadPair(src: Bytes, rp: nat, checked: bool): (r: PairRead)
    requires rp <= |src|
    ensures r.Read? ==> rp + 8 <= r.next <= |src|
    ensures r.Stop? ==> !r.outcome.Decoded?
  {
    if |src| - rp < 4 then Stop(Failed(Incomplete(src)))
    else
      var keyLen := ReadInt32(src, rp);
      var keyAt := rp + 4;
      if |src| - keyAt < keyLen then Stop(Failed(Incomplete(src)))
      else if keyLen < 0 then Stop(Panicked(NegativeKeyLength))
      else
        var key := src[keyAt..keyAt + keyLen];
        var lenAt := keyAt + keyLen;
        if |src| - lenAt < 4 then Stop(Failed(Incomplete(src)))
        else
          var valueLen := ReadInt32(src, lenAt);
          var valueAt := lenAt + 4;
          if valueLen < 0 then Read(key, None, valueAt)
          else if |src| - valueAt < valueLen then
            Stop(if checked then Failed(Incomplete(src)) else Panicked(ValueOutOfRange))
          else Read(key, Some(src[valueAt..valueAt + valueLen]), valueAt + valueLen)
  }

  /**
   * The pair loop of the binary decoders, from position `rp` with `left` pairs still to read
   * and the pairs read so far in `acc`; a later pair overrides an earlier one with its key.
   */
  function DecodeFrom(src: Bytes, rp: nat, left: int, acc: Logical, checked: bool): Outcome<Logical>
    requires rp <= |src|
    decreases if left < 0 then 0 else left
  {
    if left <= 0 then Decoded(acc)
    else
      match ReadPair(src, rp, checked)
      case Stop(o) => o
      case Read(key, value, next) => DecodeFrom(src, next, left - 1, acc[key := value], checked)
  }

  /** The outcome of the pair loop, with a decoded map wrapped as a non-nil value. */
  function Lift(o: Outcome<Logical>): (r: Outcome<Option<Logical>>)
    ensures o.Decoded? <==> r.Decoded?
    ensures o.Decoded? ==> r.value == Some(o.value)
    ensures o.Failed? ==> r == Failed(o.error)
    ensures o.Panicked? ==> r == Panicked(o.reason)
  {
    match o
    case Decoded(m) => Decoded(Some(m))
    case Failed(e) => Failed(e)
    case Panicked(p) => Panicked(p)
  }

  /**
   * The binary decoder on the logical value: nil input is the nil map; fewer than four
   * bytes is "hstore incomplete"; otherwise the pair count, then the pair loop. A negative
   * pair count reads no pair, since Go's `make` of a map treats a negative size hint as 0.
   */
  function DecodeWith(src: Option<Bytes>, checked: bool): (r: Outcome<Option<Logical>>)
    ensures src.None? ==> r == Decoded(None)
    ensures src.Some? && |src.value| < 4 ==> r == Failed(Incomplete(src.value))
  {
    match src
    case None => Decoded(None)
    case Some(s) =>
      if |s| < 4 then Failed(Incomplete(s))
      else Lift(DecodeFrom(s, 4, ReadInt32(s, 0), map[], checked))
  }

  /** `scanPlanBinaryHstoreToHstoreScanner.Scan` as written. */
  function DecodeBinary(src: Option<Bytes>): Outcome<Option<Logical>> {
    DecodeWith(src, false)
  }

  /** The same decoder with the missing value-length check added. */
  function DecodeBinaryChecked(src: Option<Bytes>): Outcome<Option<Logical>> {
    DecodeWith(src, true)
  }

  /**
   * `scanPlanBinaryHstoreToHstoreCompatScanner.Scan` on the logical value: as
   * `DecodeBinary`, except that a negative pair count panics in `make([]string, ...)`.
   */
  function DecodeBinaryCompat(src: Option<Bytes>): Outcome<Option<Logical>> {
    if src.Some? && |src.value| >= 4 && ReadInt32(src.value, 0) < 0 then Panicked(NegativeCount)
    else DecodeBinary(src)
  }

  // ---------------------------------------------------------------------------------------
  // Properties

  /** A negative pair count: the map decoder returns an empty map, the compatible one panics. */
  lemma NegativeCountDecoded(s: Bytes)
    requires |s| >= 4 && ReadInt32(s, 0) < 0
    ensures DecodeBinary(Some(s)) == Decoded(Some(map[]))
    ensures DecodeBinaryCompat(Some(s)) == Panicked(NegativeCount)
  {
  }

  /** The compatible decoder agrees with the map decoder wherever the pair count is not negative. */
  lemma CompatAgrees(src: Option<Bytes>)
    ensures DecodeBinaryCompat(src) == DecodeBinary(src) || DecodeBinaryCompat(src) == Panicked(NegativeCount)
    ensures src.Some? && |src.value| >= 4 && ReadInt32(src.value, 0) >= 0 ==> DecodeBinaryCompat(src) == DecodeBinary(src)
  {
  }

  /** One pass of the pair loop over a NULL value: the key is stored as NULL. */
  lemma StepNull(src: Bytes, rp: nat, checked: bool, kl: nat)
    requires rp + 8 + kl <= |src|
    requires ReadInt32(src, rp) == kl && ReadInt32(src, rp + 4 + kl) < 0
    ensures ReadPair(src, rp, checked) == Read(src[rp + 4..rp + 4 + kl], None, rp + 8 + kl)
  {
  }

  /** One pass of the pair loop over a present value: its bytes are stored for the key. */
  lemma StepPresent(src: Bytes, rp: nat, checked: bool, kl: nat, vl: nat)
    requires rp + 8 + kl + vl <= |src|
    requires ReadInt32(src, rp) == kl && ReadInt32(src, rp + 4 + kl) == vl
    ensures ReadPair(src, rp, checked)
         == Read(src[rp + 4..rp + 4 + kl], Some(src[rp + 8 + kl..rp + 8 + kl + vl]), rp + 8 + kl + vl)
  {
  }

  /** The bytes of a pair, field by field. */
  lemma EntryParts(e: Entry)
    requires Fits(e)
    ensures var b, k := EntryBinary(e), |e.0|;
      && b[..4] == Be32(k) && b[4..4 + k] == e.0
      && b[4 + k..8 + k] == (if e.1.None? then Be32(-1) else Be32(|e.1.value|))
      && (e.1.Some? ==> b[8 + k..] == e.1.value)
  {
    var b, k := EntryBinary(e), |e.0|;
    var head, value := Be32(Int32(k)), ValueBinary(e.1);
    assert b == head + e.0 + value;
    assert b[..4] == head;
    assert b[4..4 + k] == e.0;
    assert b[4 + k..] == value;
    assert b[4 + k..8 + k] == value[..4];
    if e.1.Some? {
      assert value == Be32(|e.1.value|) + e.1.value;
    }
  }

  /** Where `src` holds the first `n` bytes of `b` from `rp` on, it holds each slice of them. */
  lemma SliceOfPrefix(src: Bytes, rp: nat, b: Bytes, n: nat, i: nat, j: nat)
    requires n <= |b| && rp + n <= |src| && src[rp..rp + n] == b[..n]
    requires i <= j <= n
    ensures src[rp + i..rp + j] == b[i..j]
  {
    forall x | 0 <= x < j - i
      ensures src[rp + i..rp + j][x] == b[i..j][x]
    {
      assert src[rp + i..rp + j][x] == src[rp..rp + n][i + x];
      assert b[i..j][x] == b[..n][i + x];
    }
  }

  /** A pair whose key or value-length field is cut off is "hstore incomplete". */
  lemma StepShortKey(src: Bytes, rp: nat, checked: bool, kl: nat)
    requires rp + 4 <= |src| < rp + 8 + kl
    requires ReadInt32(src, rp) == kl
    ensures ReadPair(src, rp, checked) == Stop(Failed(Incomplete(src)))
  {
  }

  /** A present value cut off: "hstore incomplete" when checked, a panic as written. */
  lemma StepShortValue(src: Bytes, rp: nat, kl: nat, vl: nat)
    requires rp + 8 + kl <= |src| < rp + 8 + kl + vl
    requires ReadInt32(src, rp) == kl && ReadInt32(src, rp + 4 + kl) == vl
    ensures ReadPair(src, rp, true) == Stop(Failed(Incomplete(src)))
    ensures ReadPair(src, rp, false) == Stop(Panicked(ValueOutOfRange))
  {
  }

  /** The fields of a pair written at `rp` read back as its key length, key and value. */
  lemma EntryFields(src: Bytes, rp: nat, e: Entry)
    requires Fits(e)
    requires rp + |EntryBinary(e)| <= |src| && src[rp..rp + |EntryBinary(e)|] == EntryBinary(e)
    ensures ReadInt32(src, rp) == |e.0|
    ensures src[rp + 4..rp + 4 + |e.0|] == e.0
    ensures ReadInt32(src, rp + 4 + |e.0|) == if e.1.None? then -1 else |e.1.value|
    ensures e.1.Some? ==> src[rp + 8 + |e.0|..rp + 8 + |e.0| + |e.1.value|] == e.1.value
  {
    var head, k := Be32(Int32(|e.0|)), |e.0|;
    SplitAt(src, rp, head + e.0, ValueBinary(e.1));
    SplitAt(src, rp, head, e.0);
    ReadBe32(src, rp, k);
    ValueFields(src, rp + 4 + k, e.1);
  }

  /** The fields of a value written at `at`: its length, then its bytes when present. */
  lemma ValueFields(src: Bytes, at: nat, v: Option<Bytes>)
    requires v.Some? ==> IsInt32(|v.value|)
    requires at + |ValueBinary(v)| <= |src| && src[at..at + |ValueBinary(v)|] == ValueBinary(v)
    ensures ReadInt32(src, at) == if v.None? then -1 else |v.value|
    ensures v.Some? ==> src[at + 4..at + 4 + |v.value|] == v.value
  {
    if v.None? {
      ReadBe32(src, at, -1);
    } else {
      SplitAt(src, at, Be32(|v.value|), v.value);
      ReadBe32(src, at, |v.value|);
    }
  }

  /** A slice holding a concatenation holds each part in turn. */
  lemma SplitAt(src: Bytes, at: nat, a: Bytes, c: Bytes)
    requires at + |a + c| <= |src| && src[at..at + |a + c|] == a + c
    ensures src[at..at + |a|] == a && src[at + |a|..at + |a| + |c|] == c
  {
    assert src[at..at + |a|] == src[at..at + |a + c|][..|a|];
    assert src[at + |a|..at + |a| + |c|] == src[at..at + |a + c|][|a|..];
  }

  /** The pair loop reads a pair written at `rp` and moves past it. */
  lemma DecodeEntry(src: Bytes, rp: nat, e: Entry, checked: bool)
    requires Fits(e)
    requires rp + |EntryBinary(e)| <= |src| && src[rp..rp + |EntryBinary(e)|] == EntryBinary(e)
    ensures ReadPair(src, rp, checked) == Read(e.0, e.1, rp + |EntryBinary(e)|)
  {
    EntryFields(src, rp, e);
    if e.1.None? {
      StepNull(src, rp, checked, |e.0|);
    } else {
      StepPresent(src, rp, checked, |e.0|, |e.1.value|);
    }
  }

  /** The pair loop reads back every pair written from `rp` on. */
  lemma {:induction false} DecodeEntries(src: Bytes, rp: nat, es: seq<Entry>, acc: Logical, checked: bool)
    requires AllFit(es)
    requires rp + |EntriesBinary(es)| <= |src| && src[rp..rp + |EntriesBinary(es)|] == EntriesBinary(es)
    ensures DecodeFrom(src, rp, |es|, acc, checked) == Decoded(CollectFrom(acc, es))
    decreases |es|
  {
    if |es| == 0 {
      assert DecodeFrom(src, rp, 0, acc, checked) == Decoded(acc);
    } else {
      var next := rp + |EntryBinary(es[0])|;
      var acc' := acc[es[0].0 := es[0].1];
      DecodeFirst(src, rp, es, acc, checked, next, acc');
      DecodeEntries(src, next, es[1..], acc', checked);
    }
  }

  /** The pair loop over written pairs reads the first one and goes on with the others. */
  lemma DecodeFirst(src: Bytes, rp: nat, es: seq<Entry>, acc: Logical, checked: bool, next: nat, acc': Logical)
    requires |es| > 0 && AllFit(es)
    requires rp + |EntriesBinary(es)| <= |src| && src[rp..rp + |EntriesBinary(es)|] == EntriesBinary(es)
    requires next == rp + |EntryBinary(es[0])| && acc' == acc[es[0].0 := es[0].1]
    ensures AllFit(es[1..])
    ensures next + |EntriesBinary(es[1..])| <= |src| && src[next..next + |EntriesBinary(es[1..])|] == EntriesBinary(es[1..])
    ensures DecodeFrom(src, rp, |es|, acc, checked) == DecodeFrom(src, next, |es[1..]|, acc', checked)
    ensures CollectFrom(acc, es) == CollectFrom(acc', es[1..])
  {
    SplitFirst(src, rp, es);
    DecodeEntry(src, rp, es[0], checked);
    assert ReadPair(src, rp, checked) == Read(es[0].0, es[0].1, next);
  }

  /** Written pairs are the first pair's bytes followed by the others'. */
  lemma SplitFirst(src: Bytes, rp: nat, es: seq<Entry>)
    requires |es| > 0 && AllFit(es)
    requires rp + |EntriesBinary(es)| <= |src| && src[rp..rp + |EntriesBinary(es)|] == EntriesBinary(es)
    ensures Fits(es[0]) && AllFit(es[1..])
    ensures var next := rp + |EntryBinary(es[0])|;
      && next + |EntriesBinary(es[1..])| <= |src|
      && src[rp..next] == EntryBinary(es[0])
      && src[next..next + |EntriesBinary(es[1..])|] == EntriesBinary(es[1..])
  {
    var all, b, tail := EntriesBinary(es), EntryBinary(es[0]), EntriesBinary(es[1..]);
    assert all == b + tail;
    assert all[..|all|] == all && all[0..|b|] == b && all[|b|..|all|] == tail;
    SliceOfPrefix(src, rp, all, |all|, 0, |b|);
    SliceOfPrefix(src, rp, all, |all|, |b|, |all|);
    assert Fits(es[0]);
  }

  /** Round trip: decoding the encoding of the pairs `es` collects them, later keys winning. */
  lemma RoundTrip(es: seq<Entry>, checked: bool)
    requires AllFit(es) && |es| < TWO_31
    ensures ReadInt32(Encoded(es), 0) == |es|
    ensures DecodeWith(Some(Encoded(es)), checked) == Decoded(Some(Collect(es)))
  {
    var s := Encoded(es);
    assert s[..4] == Be32(|es|);
    ReadBe32(s, 0, |es|);
    assert s[4..4 + |EntriesBinary(es)|] == EntriesBinary(es);
    DecodeEntries(s, 4, es, map[], checked);
  }

  /** Round trip for an enumeration of a map: both decoders give back the map. */
  lemma RoundTripMap(es: seq<Entry>, m: Logical)
    requires IsEnumeration(es, m) && AllFit(es) && |es| < TWO_31
    ensures DecodeBinary(Some(Encoded(es))) == Decoded(Some(m))
    ensures DecodeBinaryChecked(Some(Encoded(es))) == Decoded(Some(m))
    ensures DecodeBinaryCompat(Some(Encoded(es))) == Decoded(Some(m))
  {
    RoundTrip(es, false);
    RoundTrip(es, true);
    CollectEnumeration(map[], es, m);
    assert map[] + m == m;
  }

  /** The checked pair loop reports a pair cut short at any byte as "hstore incomplete". */
  lemma TruncatedEntry(src: Bytes, rp: nat, e: Entry)
    requires Fits(e)
    requires rp <= |src| < rp + |EntryBinary(e)| && src[rp..] == EntryBinary(e)[..|src| - rp]
    ensures ReadPair(src, rp, true) == Stop(Failed(Incomplete(src)))
  {
    var b, k, n := EntryBinary(e), |e.0|, |src| - rp;
    assert src[rp..rp + n] == b[..n];
    EntryParts(e);
    if n >= 4 {
      SliceOfPrefix(src, rp, b, n, 0, 4);
      ReadBe32(src, rp, k);
      if n < 8 + k {
        StepShortKey(src, rp, true, k);
      } else {
        SliceOfPrefix(src, rp, b, n, 4 + k, 8 + k);
        ReadBe32(src, rp + 4 + k, |e.1.value|);
        StepShortValue(src, rp, k, |e.1.value|);
      }
    }
  }

  /** The checked pair loop reports any strict prefix of written pairs as "hstore incomplete". */
  lemma {:induction false} TruncatedEntries(src: Bytes, rp: nat, es: seq<Entry>, acc: Logical)
    requires AllFit(es)
    requires rp <= |src| < rp + |EntriesBinary(es)| && src[rp..] == EntriesBinary(es)[..|src| - rp]
    ensures DecodeFrom(src, rp, |es|, acc, true) == Failed(Incomplete(src))
    decreases |es|
  {
    assert |es| > 0;
    var next := rp + |EntryBinary(es[0])|;
    SplitTruncated(src, rp, es);
    if |src| < next {
      TruncatedEntry(src, rp, es[0]);
      assert ReadPair(src, rp, true) == Stop(Failed(Incomplete(src)));
    } else {
      var acc' := acc[es[0].0 := es[0].1];
      DecodeEntry(src, rp, es[0], true);
      TruncatedEntries(src, next, es[1..], acc');
      assert |es[1..]| == |es| - 1;
      assert ReadPair(src, rp, true) == Read(es[0].0, es[0].1, next);
      assert DecodeFrom(src, rp, |es|, acc, true) == DecodeFrom(src, next, |es| - 1, acc', true);
    }
  }

  /** A strict prefix of written pairs cuts either the first pair or the ones after it. */
  lemma SplitTruncated(src: Bytes, rp: nat, es: seq<Entry>)
    requires |es| > 0 && AllFit(es)
    requires rp <= |src| < rp + |EntriesBinary(es)| && src[rp..] == EntriesBinary(es)[..|src| - rp]
    ensures Fits(es[0]) && AllFit(es[1..])
    ensures var next := rp + |EntryBinary(es[0])|;
      if |src| < next then src[rp..] == EntryBinary(es[0])[..|src| - rp]
      else
        && src[rp..next] == EntryBinary(es[0])
        && |src| < next + |EntriesBinary(es[1..])|
        && src[next..] == EntriesBinary(es[1..])[..|src| - next]
  {
    var all, b, tail := EntriesBinary(es), EntryBinary(es[0]), EntriesBinary(es[1..]);
    var n := |src| - rp;
    assert all == b + tail;
    assert src[rp..rp + n] == all[..n];
    assert Fits(es[0]);
    if n < |b| {
      SliceOfPrefix(src, rp, all, n, 0, n);
      assert all[0..n] == b[..n];
    } else {
      var next := rp + |b|;
      SliceOfPrefix(src, rp, all, n, 0, |b|);
      SliceOfPrefix(src, rp, all, n, |b|, n);
      assert all[0..|b|] == b && all[|b|..n] == tail[..n - |b|];
      assert src[next..] == src[rp + |b|..rp + n];
    }
  }

  /**
   * The checked loop differs from the code as written only where the latter panics on a
   * value running past the end; there the checked loop reports "hstore incomplete".
   */
  lemma {:induction false} CheckedAgrees(src: Bytes, rp: nat, left: int, acc: Logical)
    requires rp <= |src|
    ensures DecodeFrom(src, rp, left, acc, false) == DecodeFrom(src, rp, left, acc, true)
         || (DecodeFrom(src, rp, left, acc, false) == Panicked(ValueOutOfRange)
             && DecodeFrom(src, rp, left, acc, true) == Failed(Incomplete(src)))
    decreases if left < 0 then 0 else left
  {
    if left > 0 {
      CheckedPairAgrees(src, rp);
      var r := ReadPair(src, rp, true);
      if r.Read? {
        CheckedAgrees(src, r.next, left - 1, acc[r.key := r.value]);
      }
    }
  }

  /** One pass of the checked loop differs from the code as written only by that panic. */
  lemma CheckedPairAgrees(src: Bytes, rp: nat)
    requires rp <= |src|
    ensures ReadPair(src, rp, false) == ReadPair(src, rp, true)
         || (ReadPair(src, rp, false) == Stop(Panicked(ValueOutOfRange))
             && ReadPair(src, rp, true) == Stop(Failed(Incomplete(src))))
  {
  }

  /**
   * Truncation: every strict prefix of an encoding is "hstore incomplete" for the checked
   * decoder; the decoder as written either says so too or panics on a cut-off value.
   */
  lemma TruncatedEncoding(es: seq<Entry>, n: nat)
    requires AllFit(es) && |es| < TWO_31 && n < |Encoded(es)|
    ensures DecodeBinaryChecked(Some(Encoded(es)[..n])) == Failed(Incomplete(Encoded(es)[..n]))
    ensures DecodeBinary(Some(Encoded(es)[..n])) == Failed(Incomplete(Encoded(es)[..n]))
         || DecodeBinary(Some(Encoded(es)[..n])) == Panicked(ValueOutOfRange)
  {
    var s := Encoded(es)[..n];
    if n >= 4 {
      assert s[..4] == Be32(|es|);
      ReadBe32(s, 0, |es|);
      assert s[4..] == EntriesBinary(es)[..n - 4];
      TruncatedEntries(s, 4, es, map[]);
      CheckedAgrees(s, 4, |es|, map[]);
    }
  }

  /**
   * The input behind the finding: one pair whose key `k` is present and whose value length
   * says 1, with the value byte missing. The code as written panics; the checked decoder
   * reports "hstore incomplete".
   */
  lemma TruncatedValuePanics()
    ensures var s: Bytes := [0, 0, 0, 1, 0, 0, 0, 1, 0x6B, 0, 0, 0, 1];
      && DecodeBinary(Some(s)) == Panicked(ValueOutOfRange)
      && DecodeBinaryChecked(Some(s)) == Failed(Incomplete(s))
  {
    var s: Bytes := [0, 0, 0, 1, 0, 0, 0, 1, 0x6B, 0, 0, 0, 1];
    var one: Bytes := [0, 0, 0, 1];
    assert s[0..4] == s[4..8] == s[9..13] == one;
    BigEndian4(one);
  }

  /**
   * A key length of -1 passes the length check of both decoders, because `len(src[rp:])` is
   * never below -1, and then panics in the key slice.
   */
  lemma NegativeKeyLengthPanics()
    ensures var s: Bytes := [0, 0, 0, 1, 0xFF, 0xFF, 0xFF, 0xFF];
      && DecodeBinary(Some(s)) == Panicked(NegativeKeyLength)
      && DecodeBinaryChecked(Some(s)) == Panicked(NegativeKeyLength)
  {
    var s: Bytes := [0, 0, 0, 1, 0xFF, 0xFF, 0xFF, 0xFF];
    var one: Bytes := [0, 0, 0, 1];
    var minusOne: Bytes := [0xFF, 0xFF, 0xFF, 0xFF];
    assert s[0..4] == one && s[4..8] == minusOne;
    BigEndian4(one);
    BigEndian4(minusOne);
  }
}
