/**
 * `hstoreParser`, `parseHstore` and `parseHstoreCompat`: the byte scanner over the text
 * format, with its two mutable fields, proved to compute the reading functions of
 * `TextFormat`.
 */
module TextParser {
  import opened Wrappers
  import opened Bytes
  import opened HstoreValues
  import opened HstoreErrors
  import opened TextFormat

  /**
   * `hstoreParser`: the input, the read position `pos`, and `nextBackslash`, a cached index
   * of the next `\` (or -1) that lets quoted strings without escapes be sliced directly.
   */
  class HstoreParser {
    const str: Bytes
    var pos: int
    var nextBackslash: int

    /** The read position is within the input. */
    predicate Valid()
      reads this
    {
      0 <= pos <= |str|
    }

    /** The cache is exact: the first `\` at or after `pos`, or -1 when there is none. */
    predicate Synced()
      reads this
    {
      Valid() && nextBackslash == NextIndex(str, pos, BACKSLASH)
    }

    /** The unread input. */
    function Rest(): Bytes
      reads this
      requires Valid()
    {
      str[pos..]
    }

    /** `newHSP`. */
    constructor (input: Bytes)
      ensures str == input && pos == 0 && Synced()
    {
      str := input;
      pos := 0;
      nextBackslash := IndexByte(input, BACKSLASH);
      new;
      assert input[0..] == input;
    }

    /** `atEnd`. */
    predicate AtEnd()
      reads this
      requires Valid()
      ensures AtEnd() <==> Rest() == []
    {
      pos >= |str|
    }

    /** `consume`: the next byte, or `(0, true)` at the end of the input. */
    method Consume() returns (b: byte, end: bool)
      requires Valid()
      modifies this
      ensures Valid() && nextBackslash == old(nextBackslash)
      ensures end <==> old(pos) == |str|
      ensures end ==> b == 0 && pos == old(pos)
      ensures !end ==> b == str[old(pos)] && pos == old(pos) + 1
    {
      if pos >= |str| {
        return 0, true;
      }
      b := str[pos];
      pos := pos + 1;
      end := false;
    }

    /** `consumeExpectedByte`: the byte is consumed even when it is not the expected one. */
    method ConsumeExpectedByte(expected: byte) returns (err: Option<Error>)
      requires Valid()
      modifies this
      ensures Valid() && nextBackslash == old(nextBackslash)
      ensures err == ExpectByte(old(Rest()), expected)
      ensures pos == if old(pos) < |str| then old(pos) + 1 else old(pos)
      ensures err.None? && expected != BACKSLASH && old(Synced()) ==> Synced()
    {
      ghost var start := pos;
      var nextB, end := Consume();
      if end {
        return Some(ExpectedFoundEnd(expected));
      }
      if nextB != expected {
        return Some(UnexpectedByte(nextB, expected));
      }
      if expected != BACKSLASH {
        NextIndexSkip(str, start, pos, BACKSLASH);
      }
      return None;
    }

    /** `consumeExpected2`: nothing is consumed unless both bytes match. */
    method ConsumeExpected2(one: byte, two: byte) returns (err: Option<Error>)
      requires Valid()
      modifies this
      ensures Valid() && nextBackslash == old(nextBackslash)
      ensures err == Expect2(old(Rest()), one, two)
      ensures pos == if err.None? then old(pos) + 2 else old(pos)
      ensures one != BACKSLASH && two != BACKSLASH && old(Synced()) ==> Synced()
    {
      if pos + 2 > |str| {
        return Some(UnexpectedEndOfString);
      }
      if str[pos] != one {
        return Some(UnexpectedByte(str[pos], one));
      }
      if str[pos + 1] != two {
        return Some(UnexpectedByte(str[pos + 1], two));
      }
      if one != BACKSLASH && two != BACKSLASH {
        NextIndexSkip(str, pos, pos + 2, BACKSLASH);
      }
      pos := pos + 2;
      return None;
    }

    /**
     * `consumeDoubleQuoted`, after the opening quote. The fast path slices the input up to
     * the next `"` when the cached backslash is past it; the slow path unescapes and then
     * renews the cache. Either way the result is what `Quoted` reads.
     */
    method ConsumeDoubleQuoted() returns (r: Result<Bytes, Error>)
      requires Synced()
      modifies this
      ensures Valid() && pos >= old(pos)
      ensures Quoted(old(Rest())).Err? ==> r == Err(Quoted(old(Rest())).error)
      ensures Quoted(old(Rest())).Ok? ==>
        && r == Ok(Quoted(old(Rest())).value.0)
        && pos == old(pos) + Quoted(old(Rest())).value.1
        && Synced()
    {
      ghost var start := pos;
      ghost var rest := str[pos..];
      var nextDoubleQuote := IndexByte(str[pos..], QUOTE);
      if nextDoubleQuote == -1 {
        return Err(EndInQuoted);
      }
      nextDoubleQuote := nextDoubleQuote + pos;
      if nextBackslash == -1 || nextBackslash > nextDoubleQuote {
        // no escapes in this string
        FastPathQuoted(str, start, nextBackslash, nextDoubleQuote);
        var s := str[pos..nextDoubleQuote];
        pos := nextDoubleQuote + 1;
        return Ok(s);
      }
      SlowPathQuoted(str, start, nextBackslash, nextDoubleQuote);
      r := ConsumeDoubleQuotedWithEscapes(nextBackslash);
      Resync();
    }

    /** The cache renewal after the slow path: `nextBackslash` becomes the first `\` at or after `pos`. */
    method Resync()
      requires Valid()
      modifies this
      ensures pos == old(pos) && Synced()
    {
      nextBackslash := IndexByte(str[pos..], BACKSLASH);
      if nextBackslash != -1 {
        nextBackslash := nextBackslash + pos;
      }
    }

    /**
     * `consumeDoubleQuotedWithEscapes`: copies the input from `pos` up to `firstBackslash`
     * as it is, then unescapes byte by byte up to the closing quote.
     */
    method ConsumeDoubleQuotedWithEscapes(firstBackslash: int) returns (r: Result<Bytes, Error>)
      requires Valid() && pos <= firstBackslash <= |str|
      modifies this
      ensures Valid() && pos >= old(pos) && nextBackslash == old(nextBackslash)
      ensures var u := Prepend(str[old(pos)..firstBackslash], firstBackslash - old(pos), Unquote(str[firstBackslash..]));
        && (u.Err? ==> r == Err(u.error))
        && (u.Ok? ==> r == Ok(u.value.0) && pos == old(pos) + u.value.1)
    {
      ghost var start := pos;
      ghost var u := Prepend(str[pos..firstBackslash], firstBackslash - pos, Unquote(str[firstBackslash..]));
      var builder := str[pos..firstBackslash];
      pos := firstBackslash;
      while true
        invariant firstBackslash <= pos <= |str| && nextBackslash == old(nextBackslash)
        invariant u == Prepend(builder, pos - start, Unquote(str[pos..]))
        decreases |str| - pos
      {
        ghost var at := pos;
        var nextB, end := Consume();
        if end {
          LoopAtEnd(str, at, builder, at - start, u);
          return Err(EndInQuoted);
        } else if nextB == QUOTE {
          LoopAtQuote(str, at, nextB, builder, at - start, u);
          break;
        } else if nextB == BACKSLASH {
          // escape: skip the backslash and copy the byte
          nextB, end := Consume();
          if end {
            LoopBackslashAtEnd(str, at, builder, at - start, u);
            return Err(EndInQuoted);
          }
          if !(nextB == BACKSLASH || nextB == QUOTE) {
            LoopBadEscape(str, at, nextB, builder, at - start, u);
            return Err(UnexpectedEscape(nextB));
          }
          LoopEscaped(str, at, pos, nextB, builder, at - start, pos - start, u);
          builder := builder + [nextB];
        } else {
          LoopPlain(str, at, pos, nextB, builder, at - start, pos - start, u);
          builder := builder + [nextB];
        }
      }
      return Ok(builder);
    }

    /** `consumePairSeparator`: exactly `, `. */
    method ConsumePairSeparator() returns (err: Option<Error>)
      requires Valid()
      modifies this
      ensures Valid() && nextBackslash == old(nextBackslash)
      ensures err == Expect2(old(Rest()), COMMA, SPACE)
      ensures pos == if err.None? then old(pos) + 2 else old(pos)
      ensures old(Synced()) ==> Synced()
    {
      err := ConsumeExpected2(COMMA, SPACE);
    }

    /** `consumeKVSeparator`: exactly `=>`. */
    method ConsumeKVSeparator() returns (err: Option<Error>)
      requires Valid()
      modifies this
      ensures Valid() && nextBackslash == old(nextBackslash)
      ensures err == Expect2(old(Rest()), EQUALS, GREATER)
      ensures pos == if err.None? then old(pos) + 2 else old(pos)
      ensures old(Synced()) ==> Synced()
    {
      err := ConsumeExpected2(EQUALS, GREATER);
    }

    /**
     * `consumeDoubleQuotedOrNull`: exactly `NULL` gives `Text{"", false}`, a quoted string
     * a present text; the result is what `Value` reads.
     */
    method ConsumeDoubleQuotedOrNull() returns (r: Result<Text, Error>)
      requires Synced()
      modifies this
      ensures Valid() && pos >= old(pos)
      ensures Value(old(Rest())).Err? ==> r == Err(Value(old(Rest())).error)
      ensures Value(old(Rest())).Ok? ==>
        && r == Ok(ToText(Value(old(Rest())).value.0))
        && pos == old(pos) + Value(old(Rest())).value.1
        && Synced()
    {
      ghost var start := pos;
      if AtEnd() {
        return Err(EndInsteadOfValue);
      }
      var next := str[pos];
      if next == LETTER_N {
        // must be the exact string NULL
        var err := ConsumeExpected2(LETTER_N, LETTER_U);
        if err.Some? {
          return Err(err.value);
        }
        DropTwice(str, start);
        err := ConsumeExpected2(LETTER_L, LETTER_L);
        if err.Some? {
          return Err(err.value);
        }
        return Ok(Text([], false));
      } else if next != QUOTE {
        return Err(UnexpectedByte(next, QUOTE));
      }
      NextIndexSkip(str, pos, pos + 1, BACKSLASH);
      pos := pos + 1;
      assert str[start..][1..] == str[pos..];
      var s := ConsumeDoubleQuoted();
      if s.Err? {
        return Err(s.error);
      }
      return Ok(NewText(s.value));
    }

    /** The part of one iteration of the parse loop after the pair separator: `"key"=>value`. */
    method ConsumeKeyValue() returns (r: Result<(Bytes, Text), Error>)
      requires Synced()
      modifies this
      ensures Valid() && pos >= old(pos)
      ensures KeyValue(old(Rest())).Err? ==> r == Err(KeyValue(old(Rest())).error)
      ensures KeyValue(old(Rest())).Ok? ==>
        && r == Ok((KeyValue(old(Rest())).value.key, ToText(KeyValue(old(Rest())).value.value)))
        && pos == old(pos) + KeyValue(old(Rest())).value.size
        && Synced()
    {
      ghost var start := pos;
      var err := ConsumeExpectedByte(QUOTE);
      if err.Some? {
        return Err(err.value);
      }
      var key := ConsumeDoubleQuoted();
      if key.Err? {
        KeyValueQuotedErr(str, start);
        return Err(key.error);
      }
      ghost var sepAt := pos;
      KeyValueQuotedOk(str, start, key.value, sepAt - start - 1, sepAt, sepAt - start);
      err := ConsumeKVSeparator();
      if err.Some? {
        return Err(err.value);
      }
      ghost var valueAt := pos;
      AfterKeyAt(str, sepAt, valueAt, key.value, sepAt - start);
      var value := ConsumeDoubleQuotedOrNull();
      if value.Err? {
        return Err(value.error);
      }
      return Ok((key.value, value.value));
    }

    /** One iteration of the loop of `parseHstore` and `parseHstoreCompat`, up to the store. */
    method ConsumePair(first: bool) returns (r: Result<(Bytes, Text), Error>)
      requires Synced()
      modifies this
      ensures Valid() && pos >= old(pos)
      ensures Pair(old(Rest()), first).Err? ==> r == Err(Pair(old(Rest()), first).error)
      ensures Pair(old(Rest()), first).Ok? ==>
        && r == Ok((Pair(old(Rest()), first).value.key, ToText(Pair(old(Rest()), first).value.value)))
        && pos == old(pos) + Pair(old(Rest()), first).value.size
        && Synced()
    {
      ghost var start := pos;
      if !first {
        var err := ConsumePairSeparator();
        if err.Some? {
          return Err(err.value);
        }
        PairAt(str, start, pos);
      }
      r := ConsumeKeyValue();
    }
  }

  /**
   * `parseHstore`: reads pairs until the input is used up; a later pair for the same key
   * overwrites an earlier one. The result is what `Parse` reads, each value stored as the
   * `Text` the parser builds for it.
   */
  method ParseHstore(s: Bytes) returns (r: Result<HstoreMap, Error>)
    ensures Parse(s).Ok? ==> r == Ok(AsHstore(Parse(s).value))
    ensures Parse(s).Err? ==> r == Err(Parse(s).error)
  {
    var p := new HstoreParser(s);
    var result: HstoreMap := map[];
    ghost var acc: Logical := map[];
    var first := true;
    assert p.Rest() == s;
    while !p.AtEnd()
      invariant p.Synced() && p.str == s
      invariant result == AsHstore(acc)
      invariant Parse(s) == ParseFrom(p.Rest(), first, acc)
      decreases |s| - p.pos
    {
      ghost var at := p.pos;
      ghost var pp := Pair(s[at..], first);
      var pair := p.ConsumePair(first);
      if pair.Err? {
        return Err(pair.error);
      }
      ParseFromAt(s, at, first, acc, pp.value, p.pos);
      first := false;
      var (key, value) := pair.value;
      AsHstoreStore(acc, key, pp.value.value);
      result := result[key := value];
      acc := acc[key := pp.value.value];
    }
    return Ok(result);
  }

  /**
   * `parseHstoreCompat`: the same loop storing pointers. It accepts exactly what
   * `parseHstore` accepts, with the same errors; each present value gets its own new slot
   * in the backing list, and that list never outgrows the capacity reserved for it, the
   * number of `>` in the input.
   */
  method ParseHstoreCompat(s: Bytes) returns (r: Result<PtrMap, Error>)
    ensures Parse(s).Err? ==> r == Err(Parse(s).error)
    ensures Parse(s).Ok? ==> r.Ok? && WellFormed(r.value) && Unaliased(r.value) && Deref(r.value) == Parse(s).value
    ensures r.Ok? ==> |r.value.strings| <= Count(s, GREATER)
  {
    var p := new HstoreParser(s);
    var result: map<Bytes, Option<nat>> := map[];
    var valueStrings: seq<Bytes> := [];
    ghost var acc: Logical := map[];
    var first := true;
    assert p.Rest() == s;
    while !p.AtEnd()
      invariant p.Synced() && p.str == s
      invariant WellFormed(PtrMap(valueStrings, result)) && Unaliased(PtrMap(valueStrings, result))
      invariant Deref(PtrMap(valueStrings, result)) == acc
      invariant Parse(s) == ParseFrom(p.Rest(), first, acc)
      invariant |valueStrings| <= Count(s[..p.pos], GREATER)
      decreases |s| - p.pos
    {
      ghost var at := p.pos;
      ghost var pp := Pair(s[at..], first);
      var pair := p.ConsumePair(first);
      if pair.Err? {
        return Err(pair.error);
      }
      ParseFromAt(s, at, first, acc, pp.value, p.pos);
      PairCountsGreater(s, at, first, p.pos);
      first := false;
      var (key, value) := pair.value;
      ghost var before := PtrMap(valueStrings, result);
      if value.valid {
        valueStrings := valueStrings + [value.s];
        result := result[key := Some(|valueStrings| - 1)];
        StoreString(before, key, value.s, PtrMap(valueStrings, result));
      } else {
        result := result[key := None];
        StoreNil(before, key, PtrMap(valueStrings, result));
      }
      acc := acc[key := pp.value.value];
    }
    assert s[..p.pos] == s;
    return Ok(PtrMap(valueStrings, result));
  }

  /** `scanPlanTextAnyToHstoreScanner.Scan`: a nil source is a nil `Hstore`. */
  method ScanText(src: Option<Bytes>) returns (r: Result<Hstore, Error>)
    ensures src.None? ==> r == Ok(None)
    ensures src.Some? && Parse(src.value).Ok? ==> r == Ok(Some(AsHstore(Parse(src.value).value)))
    ensures src.Some? && Parse(src.value).Err? ==> r == Err(Parse(src.value).error)
  {
    if src.None? {
      return Ok(None);
    }
    var h := ParseHstore(src.value);
    if h.Err? {
      return Err(h.error);
    }
    return Ok(Some(h.value));
  }

  /** `scanPlanTextAnyToHstoreCompatScanner.Scan`: a nil source is a nil `HstoreCompat`. */
  method ScanTextCompat(src: Option<Bytes>) returns (r: Result<HstoreCompat, Error>)
    ensures src.None? ==> r == Ok(None)
    ensures src.Some? && Parse(src.value).Ok? ==>
      r.Ok? && r.value.Some? && WellFormed(r.value.value) && Deref(r.value.value) == Parse(src.value).value
    ensures src.Some? && Parse(src.value).Err? ==> r == Err(Parse(src.value).error)
  {
    if src.None? {
      return Ok(None);
    }
    var h := ParseHstoreCompat(src.value);
    if h.Err? {
      return Err(h.error);
    }
    return Ok(Some(h.value));
  }

  // ---------------------------------------------------------------------------------------
  // Steps of the reading functions on suffixes of one input

  // One step of the loop of `consumeDoubleQuotedWithEscapes` at position `p` of `s`, with
  // `t` copied from the first `n` bytes: `u` is what the whole loop reads.

  lemma LoopAtEnd(s: Bytes, p: nat, t: Bytes, n: nat, u: Result<(Bytes, nat), Error>)
    requires p == |s| && u == Prepend(t, n, Unquote(s[p..]))
    ensures u == Err(EndInQuoted)
  {
  }

  lemma LoopAtQuote(s: Bytes, p: nat, b: byte, t: Bytes, n: nat, u: Result<(Bytes, nat), Error>)
    requires p < |s| && b == s[p] && b == QUOTE && u == Prepend(t, n, Unquote(s[p..]))
    ensures u == Ok((t, n + 1))
  {
    assert t + [] == t;
  }

  lemma LoopBackslashAtEnd(s: Bytes, p: nat, t: Bytes, n: nat, u: Result<(Bytes, nat), Error>)
    requires p + 1 == |s| && s[p] == BACKSLASH && u == Prepend(t, n, Unquote(s[p..]))
    ensures u == Err(EndInQuoted)
  {
  }

  lemma LoopBadEscape(s: Bytes, p: nat, b: byte, t: Bytes, n: nat, u: Result<(Bytes, nat), Error>)
    requires p + 1 < |s| && s[p] == BACKSLASH && b == s[p + 1] && b != BACKSLASH && b != QUOTE
    requires u == Prepend(t, n, Unquote(s[p..]))
    ensures u == Err(UnexpectedEscape(b))
  {
    assert s[p..][1] == s[p + 1];
  }

  lemma LoopEscaped(s: Bytes, p: nat, q: nat, b: byte, t: Bytes, n: nat, m: nat, u: Result<(Bytes, nat), Error>)
    requires q == p + 2 <= |s| && s[p] == BACKSLASH && b == s[p + 1] && (b == BACKSLASH || b == QUOTE)
    requires m == n + 2 && u == Prepend(t, n, Unquote(s[p..]))
    ensures u == Prepend(t + [b], m, Unquote(s[q..]))
  {
    assert s[p..][2..] == s[q..];
    PrependPrepend(t, n, [b], 2, Unquote(s[q..]));
  }

  lemma LoopPlain(s: Bytes, p: nat, q: nat, b: byte, t: Bytes, n: nat, m: nat, u: Result<(Bytes, nat), Error>)
    requires q == p + 1 <= |s| && b == s[p] && b != QUOTE && b != BACKSLASH
    requires m == n + 1 && u == Prepend(t, n, Unquote(s[p..]))
    ensures u == Prepend(t + [b], m, Unquote(s[q..]))
  {
    assert s[p..][1..] == s[q..];
    PrependPrepend(t, n, [b], 1, Unquote(s[q..]));
  }

  /** The fast path: no `\` from `at` up to the first `"`. */
  lemma FastPathQuoted(s: Bytes, at: nat, nb: int, q: int)
    requires at <= |s| && nb == NextIndex(s, at, BACKSLASH)
    requires IndexByte(s[at..], QUOTE) != -1 && q == IndexByte(s[at..], QUOTE) + at
    requires nb == -1 || nb > q
    ensures at <= q < |s| && s[at..q] == s[at..][..q - at]
    ensures Quoted(s[at..]) == Ok((s[at..q], q - at + 1))
    ensures NextIndex(s, q + 1, BACKSLASH) == nb
  {
    var t := s[at..];
    forall i | 0 <= i < IndexByte(t, QUOTE) ensures t[i] != BACKSLASH {
      assert t[i] == s[at + i];
    }
    FastPathAgrees(t);
    assert s[q] == QUOTE;
    NextIndexSkip(s, at, q + 1, BACKSLASH);
  }

  /** The slow path: the bytes before the first `\` are plain, so unescaping copies them. */
  lemma SlowPathQuoted(s: Bytes, at: nat, nb: int, q: int)
    requires at <= |s| && nb == NextIndex(s, at, BACKSLASH)
    requires IndexByte(s[at..], QUOTE) != -1 && q == IndexByte(s[at..], QUOTE) + at
    requires !(nb == -1 || nb > q)
    ensures at <= nb <= |s|
    ensures Quoted(s[at..]) == Prepend(s[at..nb], nb - at, Unquote(s[nb..]))
  {
    PlainBeforeBackslash(s, at, nb, q);
    QuotedFrom(s, at, nb);
  }

  /** A quoted string read from `at` whose bytes up to `to` are plain. */
  lemma QuotedFrom(s: Bytes, at: nat, to: nat)
    requires at <= to <= |s| && QUOTE in s[at..]
    requires forall i :: 0 <= i < to - at ==> s[at..][i] != QUOTE && s[at..][i] != BACKSLASH
    ensures Quoted(s[at..]) == Prepend(s[at..to], to - at, Unquote(s[to..]))
  {
    SplitSlice(s, at, to);
    QuotedPlainPrefix(s[at..], to - at, s[at..to], s[to..]);
  }

  /** Before the first `\`, which comes no later than the first `"`, every byte is plain. */
  lemma PlainBeforeBackslash(s: Bytes, at: nat, nb: int, q: int)
    requires at <= |s| && nb == NextIndex(s, at, BACKSLASH)
    requires IndexByte(s[at..], QUOTE) != -1 && q == IndexByte(s[at..], QUOTE) + at
    requires !(nb == -1 || nb > q)
    ensures at <= nb <= q < |s| && QUOTE in s[at..]
    ensures forall i :: 0 <= i < nb - at ==> s[at..][i] != QUOTE && s[at..][i] != BACKSLASH
  {
    var t := s[at..];
    forall i | 0 <= i < nb - at ensures t[i] != QUOTE && t[i] != BACKSLASH {
      assert t[i] == s[at + i];
    }
  }

  /** Dropping two bytes and then two more. */
  lemma DropTwice(s: Bytes, at: nat)
    requires at + 2 <= |s|
    ensures s[at..][2..] == s[at + 2..]
  {
  }

  /** A key that cannot be read fails the pair. */
  lemma KeyValueQuotedErr(s: Bytes, at: nat)
    requires at < |s| && s[at] == QUOTE && Quoted(s[at + 1..]).Err?
    ensures KeyValue(s[at..]) == Err(Quoted(s[at + 1..]).error)
  {
    assert s[at..][1..] == s[at + 1..];
  }

  /** After a key of `n` bytes behind the opening quote, the pair continues with `AfterKey`. */
  lemma KeyValueQuotedOk(s: Bytes, at: nat, key: Bytes, n: nat, sep: nat, m: nat)
    requires at < |s| && s[at] == QUOTE && Quoted(s[at + 1..]) == Ok((key, n))
    requires sep == at + 1 + n && m == 1 + n
    ensures sep <= |s| && KeyValue(s[at..]) == AfterKey(s[sep..], key, m)
  {
    assert s[at..][1..] == s[at + 1..];
    assert s[at..][1 + n..] == s[sep..];
  }

  /** `AfterKey` on a suffix of `s` that starts with `=>`. */
  lemma AfterKeyAt(s: Bytes, at: nat, v: nat, key: Bytes, n: nat)
    requires v == at + 2 <= |s| && s[at] == EQUALS && s[at + 1] == GREATER
    ensures AfterKey(s[at..], key, n) ==
      match Value(s[v..])
      case Err(e) => Err(e)
      case Ok(r) => Ok(ParsedPair(key, r.0, n + 2 + r.1))
  {
    assert s[at..][2..] == s[v..];
  }

  /** `Pair` after the first, on a suffix of `s` that starts with `, `. */
  lemma PairAt(s: Bytes, at: nat, k: nat)
    requires k == at + 2 <= |s| && s[at] == COMMA && s[at + 1] == SPACE
    ensures Pair(s[at..], false) ==
      match KeyValue(s[k..])
      case Err(e) => Err(e)
      case Ok(p) => Ok(p.(size := p.size + 2))
  {
    assert s[at..][2..] == s[k..];
  }

  /** One iteration of the parse loop on a suffix of `s`. */
  lemma ParseFromAt(s: Bytes, at: nat, first: bool, acc: Logical, pp: ParsedPair, to: nat)
    requires at <= |s| && Pair(s[at..], first) == Ok(pp) && to == at + pp.size
    ensures to <= |s| && ParseFrom(s[at..], first, acc) == ParseFrom(s[to..], false, acc[pp.key := pp.value])
  {
    assert s[at..][pp.size..] == s[to..];
  }

  /** Every pair read holds a `>`: the count over the read prefix grows by at least one. */
  lemma PairCountsGreater(s: Bytes, at: nat, first: bool, to: nat)
    requires at <= |s| && Pair(s[at..], first).Ok? && to == at + Pair(s[at..], first).value.size
    ensures to <= |s| && Count(s[..to], GREATER) >= Count(s[..at], GREATER) + 1
  {
    var t := s[at..];
    var pp := Pair(t, first).value;
    PairIsText(t, first);
    var q := QuotedText(pp.key);
    var e := EntryText((pp.key, pp.value));
    assert e[|q| + 1] == GREATER;
    var w := Separator(first) + e;
    assert w[|Separator(first)| + |q| + 1] == GREATER;
    assert s[..to] == s[..at] + t[..pp.size];
    CountConcat(s[..at], t[..pp.size], GREATER);
  }
}
