/**
 * The text encoders `encodePlanHstoreCodecText.Encode` and
 * `encodePlanHstoreCompatCodecText.Encode`. Both append to the caller's buffer; a Go `range`
 * over the map is modelled by an explicit enumeration `pairs` of its entries, so every
 * property holds whatever order the runtime picks.
 */
module TextEncoder {
  import opened Wrappers
  import opened Bytes
  import opened HstoreValues
  import opened TextFormat

  /**
   * `encodePlanHstoreCodecText.Encode`: nil for a nil map; otherwise `buf` followed by the
   * pairs in enumeration order, which parse back to the map's logical value.
   */
  method EncodeText(h: Hstore, pairs: seq<(Bytes, Text)>, buf: Bytes) returns (r: Option<Bytes>)
    requires h.Some? ==> IsEnumeration(pairs, h.value)
    ensures h.None? <==> r.None?
    ensures h.Some? ==> r == Some(buf + TextOf(Views(pairs)))
    ensures h.Some? ==> Parse(r.value[|buf|..]) == Ok(ViewMap(h.value))
  {
    if h.None? {
      return None;
    }
    ghost var es := Views(pairs);
    var out := buf;
    var firstPair := true;
    var i := 0;
    while i < |pairs|
      invariant 0 <= i <= |pairs|
      invariant firstPair <==> i == 0
      invariant out == buf + TextFrom(es[..i], true)
    {
      var k := pairs[i].0;
      var v := pairs[i].1;
      ghost var before := out;
      if firstPair {
        firstPair := false;
        assert out + Separator(true) == out;
      } else {
        out := out + [COMMA, SPACE];
      }
      ghost var separated := out;
      out := out + [QUOTE];
      out := out + Escape(k);
      out := out + [QUOTE];
      out := out + [EQUALS, GREATER];
      if v.valid {
        out := out + [QUOTE];
        out := out + Escape(v.s);
        out := out + [QUOTE];
        AppendPresent(separated, k, v.s);
      } else {
        out := out + NULL_LITERAL;
        AppendNull(separated, k);
      }
      EncodeStep(buf, es, i, before, separated, out);
      i := i + 1;
    }
    assert es[..i] == es;
    EncodedRoundTrip(buf, es, out, ViewMap(h.value)) by {
      ViewsEnumerate(pairs, h.value);
    }
    return Some(out);
  }

  /**
   * `encodePlanHstoreCompatCodecText.Encode`: nil for a nil map; otherwise `buf` followed by
   * the pairs with each pointer dereferenced and nil written as `NULL`, which parse back to
   * the map's logical value.
   */
  method EncodeTextCompat(h: HstoreCompat, pairs: seq<(Bytes, Option<nat>)>, buf: Bytes) returns (r: Option<Bytes>)
    requires h.Some? ==> WellFormed(h.value) && IsEnumeration(pairs, h.value.ptrs)
    ensures h.None? <==> r.None?
    ensures h.Some? ==> r == Some(buf + TextOf(DerefPairs(h.value.strings, pairs)))
    ensures h.Some? ==> Parse(r.value[|buf|..]) == Ok(Deref(h.value))
  {
    if h.None? {
      return None;
    }
    var strings := h.value.strings;
    DerefEnumerate(h.value, pairs);
    ghost var es := DerefPairs(strings, pairs);
    var out := buf;
    var firstPair := true;
    var i := 0;
    while i < |pairs|
      invariant 0 <= i <= |pairs|
      invariant firstPair <==> i == 0
      invariant out == buf + TextFrom(es[..i], true)
    {
      var k := pairs[i].0;
      var v := pairs[i].1;
      ghost var before := out;
      if firstPair {
        firstPair := false;
        assert out + Separator(true) == out;
      } else {
        out := out + [COMMA, SPACE];
      }
      ghost var separated := out;
      out := out + [QUOTE];
      out := out + Escape(k);
      out := out + [QUOTE];
      out := out + [EQUALS, GREATER];
      if v.None? {
        out := out + NULL_LITERAL;
        AppendNull(separated, k);
      } else {
        out := out + [QUOTE];
        out := out + Escape(strings[v.value]);
        out := out + [QUOTE];
        AppendPresent(separated, k, strings[v.value]);
      }
      EncodeStep(buf, es, i, before, separated, out);
      i := i + 1;
    }
    assert es[..i] == es;
    EncodedRoundTrip(buf, es, out, Deref(h.value));
    return Some(out);
  }

  /** One pass of the encoding loop appends the separator and the text of pair `i`. */
  lemma EncodeStep(buf: Bytes, es: seq<Entry>, i: nat, before: Bytes, separated: Bytes, after: Bytes)
    requires i < |es|
    requires before == buf + TextFrom(es[..i], true)
    requires separated == before + Separator(i == 0)
    requires after == separated + EntryText(es[i])
    ensures after == buf + TextFrom(es[..i + 1], true)
  {
    TextFromPrefix(es, i, true);
    Associate3(buf, TextFrom(es[..i], true), Separator(i == 0), EntryText(es[i]));
  }

  /** Regrouping a concatenation of four parts, left-nested against right-nested. */
  lemma Associate3(a: Bytes, b: Bytes, c: Bytes, d: Bytes)
    ensures a + b + c + d == a + (b + (c + d))
  {
  }

  /** The bytes the loop appends for a present value, one `append` at a time. */
  lemma AppendPresent(x: Bytes, k: Bytes, s: Bytes)
    ensures x + [QUOTE] + Escape(k) + [QUOTE] + [EQUALS, GREATER] + [QUOTE] + Escape(s) + [QUOTE]
         == x + EntryText((k, Some(s)))
  {
    var key := [QUOTE] + Escape(k) + [QUOTE];
    var value := [QUOTE] + Escape(s) + [QUOTE];
    assert x + [QUOTE] + Escape(k) + [QUOTE] == x + key;
    assert x + key + [EQUALS, GREATER] + [QUOTE] + Escape(s) + [QUOTE]
        == x + key + [EQUALS, GREATER] + value;
  }

  /** The bytes the loop appends for a NULL value, one `append` at a time. */
  lemma AppendNull(x: Bytes, k: Bytes)
    ensures x + [QUOTE] + Escape(k) + [QUOTE] + [EQUALS, GREATER] + NULL_LITERAL == x + EntryText((k, None))
  {
    var key := [QUOTE] + Escape(k) + [QUOTE];
    assert x + [QUOTE] + Escape(k) + [QUOTE] == x + key;
  }

  /** What follows `buf` in the output is the text of an enumeration, which parses back. */
  lemma EncodedRoundTrip(buf: Bytes, es: seq<Entry>, out: Bytes, m: Logical)
    requires IsEnumeration(es, m)
    requires out == buf + TextOf(es)
    ensures Parse(out[|buf|..]) == Ok(m)
  {
    assert out[|buf|..] == TextOf(es);
    ParseEncoded(es, m);
  }
}
