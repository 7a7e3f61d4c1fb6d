/**
 * The binary encoders `encodePlanHstoreCodecBinary.Encode` and
 * `encodePlanHstoreCompatCodecBinary.Encode`, and the binary decoders
 * `scanPlanBinaryHstoreToHstoreScanner.Scan` and
 * `scanPlanBinaryHstoreToHstoreCompatScanner.Scan`, each proved against the wire format
 * of `BinaryFormat`. A Go `range` over a map is an explicit enumeration `pairs`; a Go
 * runtime panic is the outcome `Panicked`.
 */
module BinaryCodec {
  import opened Wrappers
  import opened Bytes
  import opened HstoreValues
  import opened HstoreErrors
  import opened BinaryFormat

  /**
   * `encodePlanHstoreCodecBinary.Encode`: nil for a nil map; otherwise `buf` followed by the
   * pair count and the pairs in enumeration order. When no length overflows an int32, the
   * appended bytes decode back to the map's logical value.
   */
  method EncodeBinary(h: Hstore, pairs: seq<(Bytes, Text)>, buf: Bytes) returns (r: Option<Bytes>)
    requires h.Some? ==> IsEnumeration(pairs, h.value)
    ensures h.None? <==> r.None?
    ensures h.Some? ==> r == Some(buf + Encoded(Views(pairs)))
    ensures h.Some? ==> |r.value| == |buf| + 4 + PayloadSize(Views(pairs))
    ensures h.Some? && AllFit(Views(pairs)) && |h.value| < TWO_31 ==>
      DecodeBinary(Some(r.value[|buf|..])) == Decoded(Some(ViewMap(h.value)))
  {
    if h.None? {
      return None;
    }
    ghost var es := Views(pairs);
    var out := AppendInt32(buf, Int32(|h.value|));
    out := AppendPairs(pairs, out);
    EncodedResult(buf, |h.value|, es, out);
    r := Some(out);
    EncodedDecodes(h.value, pairs, buf, r);
  }

  /**
   * `encodePlanHstoreCompatCodecBinary.Encode`: nil for a nil map; otherwise `buf` followed
   * by the pair count and the pairs with each pointer dereferenced and nil written as the
   * length -1. When no length overflows an int32, the appended bytes decode back to the map's
   * logical value.
   */
  method EncodeBinaryCompat(h: HstoreCompat, pairs: seq<(Bytes, Option<nat>)>, buf: Bytes) returns (r: Option<Bytes>)
    requires h.Some? ==> WellFormed(h.value) && IsEnumeration(pairs, h.value.ptrs)
    ensures h.None? <==> r.None?
    ensures h.Some? ==> r == Some(buf + Encoded(DerefPairs(h.value.strings, pairs)))
    ensures h.Some? ==> |r.value| == |buf| + 4 + PayloadSize(DerefPairs(h.value.strings, pairs))
    ensures h.Some? && AllFit(DerefPairs(h.value.strings, pairs)) && |h.value.ptrs| < TWO_31 ==>
      DecodeBinary(Some(r.value[|buf|..])) == Decoded(Some(Deref(h.value)))
  {
    if h.None? {
      return None;
    }
    var strings := h.value.strings;
    DerefEnumerate(h.value, pairs);
    ghost var es := DerefPairs(strings, pairs);
    var out := AppendInt32(buf, Int32(|h.value.ptrs|));
    out := AppendPairsCompat(strings, pairs, out);
    EncodedResult(buf, |h.value.ptrs|, es, out);
    r := Some(out);
    EncodedDecodesCompat(h.value, pairs, buf, r);
  }

  /** The pair loop of `encodePlanHstoreCodecBinary.Encode`: each pair's binary form, in enumeration order. */
  method AppendPairs(pairs: seq<(Bytes, Text)>, start: Bytes) returns (out: Bytes)
    ensures out == start + EntriesBinary(Views(pairs))
  {
    ghost var es := Views(pairs);
    out := start;
    var i := 0;
    while i < |pairs|
      invariant 0 <= i <= |pairs|
      invariant out == start + EntriesBinary(es[..i])
    {
      var k := pairs[i].0;
      var v := pairs[i].1;
      ghost var before := out;
      out := AppendInt32(out, Int32(|k|));
      out := out + k;
      if v.valid {
        out := AppendInt32(out, Int32(|v.s|));
        out := out + v.s;
        AppendPresent(before, k, v.s);
      } else {
        out := AppendInt32(out, -1);
        AppendNull(before, k);
      }
      EncodeStep(start, es, i, before, out);
      i := i + 1;
    }
    assert es[..i] == es;
  }

  /**
   * The pair loop of `encodePlanHstoreCompatCodecBinary.Encode`: each pair's binary form,
   * with its pointer dereferenced, in enumeration order.
   */
  method AppendPairsCompat(strings: seq<Bytes>, pairs: seq<(Bytes, Option<nat>)>, start: Bytes) returns (out: Bytes)
    requires forall i :: 0 <= i < |pairs| && pairs[i].1.Some? ==> pairs[i].1.value < |strings|
    ensures out == start + EntriesBinary(DerefPairs(strings, pairs))
  {
    ghost var es := DerefPairs(strings, pairs);
    out := start;
    var i := 0;
    while i < |pairs|
      invariant 0 <= i <= |pairs|
      invariant out == start + EntriesBinary(es[..i])
    {
      var k := pairs[i].0;
      var v := pairs[i].1;
      ghost var before := out;
      out := AppendInt32(out, Int32(|k|));
      out := out + k;
      if v.None? {
        out := AppendInt32(out, -1);
        AppendNull(before, k);
      } else {
        out := AppendInt32(out, Int32(|strings[v.value]|));
        out := out + strings[v.value];
        AppendPresent(before, k, strings[v.value]);
      }
      EncodeStep(start, es, i, before, out);
      i := i + 1;
    }
    assert es[..i] == es;
  }

  /** What the map encoder appends decodes back to the map, when no length overflows. */
  lemma EncodedDecodes(h: HstoreMap, pairs: seq<(Bytes, Text)>, buf: Bytes, r: Option<Bytes>)
    requires IsEnumeration(pairs, h) && r == Some(buf + Encoded(Views(pairs)))
    ensures AllFit(Views(pairs)) && |h| < TWO_31 ==>
      DecodeBinary(Some(r.value[|buf|..])) == Decoded(Some(ViewMap(h)))
  {
    if AllFit(Views(pairs)) && |h| < TWO_31 {
      DropConcat(buf, Encoded(Views(pairs)));
      ViewsEnumerate(pairs, h);
      RoundTripMap(Views(pairs), ViewMap(h));
    }
  }

  /** What the `HstoreCompat` encoder appends decodes back to its logical value. */
  lemma EncodedDecodesCompat(h: PtrMap, pairs: seq<(Bytes, Option<nat>)>, buf: Bytes, r: Option<Bytes>)
    requires WellFormed(h) && IsEnumeration(pairs, h.ptrs)
    requires r == Some(buf + Encoded(DerefPairs(h.strings, pairs)))
    ensures AllFit(DerefPairs(h.strings, pairs)) && |h.ptrs| < TWO_31 ==>
      DecodeBinary(Some(r.value[|buf|..])) == Decoded(Some(Deref(h)))
  {
    if AllFit(DerefPairs(h.strings, pairs)) && |h.ptrs| < TWO_31 {
      DropConcat(buf, Encoded(DerefPairs(h.strings, pairs)));
      DerefEnumerate(h, pairs);
      RoundTripMap(DerefPairs(h.strings, pairs), Deref(h));
    }
  }

  /** The bytes the loop appends for a present value, one `append` at a time. */
  lemma AppendPresent(x: Bytes, k: Bytes, v: Bytes)
    ensures AppendInt32(AppendInt32(x, Int32(|k|)) + k, Int32(|v|)) + v == x + EntryBinary((k, Some(v)))
  {
    assert AppendInt32(x, Int32(|k|)) + k == x + (Be32(Int32(|k|)) + k);
  }

  /** The bytes the loop appends for a NULL value, one `append` at a time. */
  lemma AppendNull(x: Bytes, k: Bytes)
    ensures AppendInt32(AppendInt32(x, Int32(|k|)) + k, -1) == x + EntryBinary((k, None))
  {
    assert AppendInt32(x, Int32(|k|)) + k == x + (Be32(Int32(|k|)) + k);
  }

  /** One pass of the encoding loop appends the bytes of pair `i`. */
  lemma EncodeStep(start: Bytes, es: seq<Entry>, i: nat, before: Bytes, after: Bytes)
    requires i < |es|
    requires before == start + EntriesBinary(es[..i])
    requires after == before + EntryBinary(es[i])
    ensures after == start + EntriesBinary(es[..i + 1])
  {
    EntriesBinaryPrefix(es, i);
    Concat3(start, EntriesBinary(es[..i]), EntryBinary(es[i]));
  }

  /** After the loop: `buf`, then the encoding of the pairs, of the size the format gives. */
  lemma EncodedResult(buf: Bytes, count: nat, es: seq<Entry>, out: Bytes)
    requires count == |es|
    requires out == AppendInt32(buf, Int32(count)) + EntriesBinary(es)
    ensures out == buf + Encoded(es)
    ensures out[|buf|..] == Encoded(es)
    ensures |out| == |buf| + 4 + PayloadSize(es)
  {
    Concat3(buf, Be32(Int32(count)), EntriesBinary(es));
    DropConcat(buf, Encoded(es));
    EncodedSize(es);
  }

  /**
   * `scanPlanBinaryHstoreToHstoreScanner.Scan`: the outcome of `DecodeBinary`, with a decoded
   * value stored as `Hstore` texts (NULL as `Text{"", false}`).
   */
  method ScanBinary(src: Option<Bytes>) returns (r: Outcome<Hstore>)
    ensures match DecodeBinary(src)
      case Decoded(None) => r == Decoded(None)
      case Decoded(Some(m)) => r == Decoded(Some(AsHstore(m)))
      case Failed(e) => r == Failed(e)
      case Panicked(p) => r == Panicked(p)
  {
    if src.None? {
      return Decoded(None);
    }
    var s := src.value;
    var rp := 0;
    if |s| - rp < 4 {
      return Failed(Incomplete(s));
    }
    var pairCount := ReadInt32(s, rp);
    var pairs := ScanPairs(s, pairCount);
    match pairs
    case Decoded(hstore) => return Decoded(Some(hstore));
    case Failed(e) => return Failed(e);
    case Panicked(p) => return Panicked(p);
  }

  /**
   * The pair loop of `scanPlanBinaryHstoreToHstoreScanner.Scan`, reading `pairCount` pairs
   * from offset 4 of `s` (none when the count is negative): the outcome of `DecodeFrom`.
   */
  method ScanPairs(s: Bytes, pairCount: int) returns (r: Outcome<HstoreMap>)
    requires 4 <= |s|
    ensures match DecodeFrom(s, 4, pairCount, map[], false)
      case Decoded(m) => r == Decoded(AsHstore(m))
      case Failed(e) => r == Failed(e)
      case Panicked(p) => r == Panicked(p)
  {
    var rp := 4;
    var hstore: HstoreMap := map[];
    ghost var whole := DecodeFrom(s, 4, pairCount, map[], false);
    var keyValueString := s[rp..];
    ghost var acc: Logical := map[];
    var i := 0;
    while i < pairCount
      invariant 4 <= rp <= |s| && keyValueString == s[4..]
      invariant hstore == AsHstore(acc)
      invariant whole == DecodeFrom(s, rp, pairCount - i, acc, false)
      decreases pairCount - i
    {
      var step := NextPair(s, rp, keyValueString, whole, pairCount - i, acc);
      if step.Stop? {
        if step.outcome.Failed? {
          return Failed(step.outcome.error);
        }
        return Panicked(step.outcome.reason);
      }
      rp := step.next;
      hstore := hstore[step.key := ToText(step.value)];
      AsHstoreStore(acc, step.key, step.value);
      acc := acc[step.key := step.value];
      i := i + 1;
    }
    return Decoded(hstore);
  }

  /**
   * `scanPlanBinaryHstoreToHstoreCompatScanner.Scan`: the outcome of `DecodeBinaryCompat`.
   * A decoded value is a pointer map over `pairCount` backing strings in which pair `i`
   * points at slot `i`: well formed, unaliased, and dereferencing to the decoded map.
   */
  method ScanBinaryCompat(src: Option<Bytes>) returns (r: Outcome<HstoreCompat>)
    ensures match DecodeBinaryCompat(src)
      case Decoded(None) => r == Decoded(None)
      case Decoded(Some(m)) =>
        && r.Decoded? && r.value.Some?
        && WellFormed(r.value.value) && Unaliased(r.value.value) && Deref(r.value.value) == m
      case Failed(e) => r == Failed(e)
      case Panicked(p) => r == Panicked(p)
  {
    if src.None? {
      return Decoded(None);
    }
    var s := src.value;
    var rp := 0;
    if |s| - rp < 4 {
      return Failed(Incomplete(s));
    }
    var pairCount := ReadInt32(s, rp);
    if pairCount < 0 {
      // make([]string, pairCount) panics.
      return Panicked(NegativeCount);
    }
    var pairs := ScanPairsCompat(s, pairCount);
    match pairs
    case Decoded(p) => return Decoded(Some(p));
    case Failed(e) => return Failed(e);
    case Panicked(p) => return Panicked(p);
  }

  /**
   * The pair loop of `scanPlanBinaryHstoreToHstoreCompatScanner.Scan`: pair `i` of the
   * `pairCount` pairs read from offset 4 of `s` goes to slot `i` of the backing list.
   */
  method ScanPairsCompat(s: Bytes, pairCount: nat) returns (r: Outcome<PtrMap>)
    requires 4 <= |s|
    ensures match DecodeFrom(s, 4, pairCount, map[], false)
      case Decoded(m) =>
        && r.Decoded? && |r.value.strings| == pairCount && PointsBelow(r.value, pairCount)
        && WellFormed(r.value) && Unaliased(r.value) && Deref(r.value) == m
      case Failed(e) => r == Failed(e)
      case Panicked(p) => r == Panicked(p)
  {
    var rp := 4;
    var result: map<Bytes, Option<nat>> := map[];
    var valueStrings: seq<Bytes> := seq(pairCount, _ => []);
    var keyValueString := s[rp..];
    ghost var acc: Logical := map[];
    ghost var whole := DecodeFrom(s, 4, pairCount, map[], false);
    var i := 0;
    while i < pairCount
      invariant 4 <= rp <= |s| && keyValueString == s[4..]
      invariant 0 <= i <= pairCount == |valueStrings|
      invariant FilledBelow(PtrMap(valueStrings, result), i, acc)
      invariant whole == DecodeFrom(s, rp, pairCount - i, acc, false)
      decreases pairCount - i
    {
      var step := NextPair(s, rp, keyValueString, whole, pairCount - i, acc);
      if step.Stop? {
        if step.outcome.Failed? {
          return Failed(step.outcome.error);
        }
        return Panicked(step.outcome.reason);
      }
      rp := step.next;
      valueStrings, result := StoreSlotPair(valueStrings, result, i, step.key, step.value, acc);
      acc := acc[step.key := step.value];
      i := i + 1;
    }
    DerefsToDeref(PtrMap(valueStrings, result), acc);
    return Decoded(PtrMap(valueStrings, result));
  }

  /** The slot store of the compatible decoder's loop body. */
  method StoreSlotPair(valueStrings: seq<Bytes>, result: map<Bytes, Option<nat>>, i: nat, key: Bytes, value: Option<Bytes>, ghost acc: Logical)
    returns (strings: seq<Bytes>, ptrs: map<Bytes, Option<nat>>)
    requires i < |valueStrings|
    requires FilledBelow(PtrMap(valueStrings, result), i, acc)
    ensures |strings| == |valueStrings|
    ensures FilledBelow(PtrMap(strings, ptrs), i + 1, acc[key := value])
  {
    DerefsToDeref(PtrMap(valueStrings, result), acc);
    if value.Some? {
      strings := valueStrings[i := value.value];
      ptrs := result[key := Some(i)];
      StoreSlot(PtrMap(valueStrings, result), key, i, value.value, PtrMap(strings, ptrs));
    } else {
      strings := valueStrings;
      ptrs := result[key := None];
      StoreSlotNil(PtrMap(valueStrings, result), key, i, PtrMap(strings, ptrs));
    }
    DerefsToDeref(PtrMap(strings, ptrs), acc[key := value]);
  }

  /**
   * One pass of the decoders' loop body, from the key length to the value, with the key and
   * value sliced out of the shared copy `keyValueString` of `src[4:]` at offset `rp - 4`.
   */
  method ReadStep(s: Bytes, rp0: nat, keyValueString: Bytes) returns (step: PairRead)
    requires 4 <= rp0 <= |s| && keyValueString == s[4..]
    ensures step == ReadPair(s, rp0, false)
  {
    var rp := rp0;
    if |s| - rp < 4 {
      return Stop(Failed(Incomplete(s)));
    }
    var keyLen := ReadInt32(s, rp);
    rp := rp + 4;
    if |s| - rp < keyLen {
      return Stop(Failed(Incomplete(s)));
    }
    if keyLen < 0 {
      // keyValueString[rp-4 : rp-4+keyLen] has its bounds the wrong way round.
      return Stop(Panicked(NegativeKeyLength));
    }
    var key := keyValueString[rp - 4..rp - 4 + keyLen];
    assert key == s[rp..rp + keyLen];
    rp := rp + keyLen;
    if |s| - rp < 4 {
      return Stop(Failed(Incomplete(s)));
    }
    var valueLen := ReadInt32(s, rp);
    rp := rp + 4;
    if valueLen >= 0 {
      if rp - 4 + valueLen > |keyValueString| {
        // keyValueString[rp-4 : rp-4+valueLen] runs past the end.
        return Stop(Panicked(ValueOutOfRange));
      }
      var value := keyValueString[rp - 4..rp - 4 + valueLen];
      assert value == s[rp..rp + valueLen];
      rp := rp + valueLen;
      return Read(key, Some(value), rp);
    } else {
      return Read(key, None, rp);
    }
  }

  /**
   * One pass of the decoders' loop body, as the loop sees it: `whole`, the outcome of the
   * remaining `left` passes from `rp`, is the outcome of this pass when it stops the loop,
   * and otherwise the outcome of the `left - 1` passes after it with the pair stored.
   */
  method NextPair(s: Bytes, rp: nat, keyValueString: Bytes, ghost whole: Outcome<Logical>, ghost left: int, ghost acc: Logical)
    returns (step: PairRead)
    requires 4 <= rp <= |s| && keyValueString == s[4..] && 0 < left
    requires whole == DecodeFrom(s, rp, left, acc, false)
    ensures step.Stop? ==> !step.outcome.Decoded? && whole == step.outcome
    ensures step.Read? ==> rp < step.next <= |s| && whole == DecodeFrom(s, step.next, left - 1, acc[step.key := step.value], false)
  {
    step := ReadStep(s, rp, keyValueString);
  }
}
