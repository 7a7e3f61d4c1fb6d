/**
 * The hstore text format: what the text encoder writes and, as pure functions over the
 * unread rest of the input, what each step of the text parser reads. The parser class in
 * TextParser is proved to compute exactly these functions.
 *
 *   hstore := (pair (", " pair)*)?
 *   pair   := quoted "=>" (quoted | NULL)
 *   quoted := '"' (byte other than '\' and '"' | '\\' | '\"')* '"'
 */
module TextFormat {
  import opened Wrappers
  import opened Bytes
  import opened HstoreValues
  import opened HstoreErrors

  // ---------------------------------------------------------------------------------------
  // Writing

  /** What `quoteArrayReplacer` writes for one byte: `\` and `"` get a backslash. */
  function EscapeByte(b: byte): Bytes {
    if b == BACKSLASH || b == QUOTE then [BACKSLASH, b] else [b]
  }

  /**
   * `quoteArrayReplacer.Replace`: `\` becomes `\\`, `"` becomes `\"`, nothing else changes.
   * The replacer is declared outside the files of this model; this is its assumed behaviour.
   */
  function Escape(s: Bytes): Bytes
    decreases |s|
  {
    if |s| == 0 then [] else EscapeByte(s[0]) + Escape(s[1..])
  }

  /** A key or value as the encoder writes it: always quoted. */
  function QuotedText(s: Bytes): Bytes {
    [QUOTE] + Escape(s) + [QUOTE]
  }

  /** A value as the encoder writes it: quoted, or the bare `NULL` literal. */
  function ValueText(v: Option<Bytes>): Bytes {
    match v
    case None => NULL_LITERAL
    case Some(s) => QuotedText(s)
  }

  /** One pair: `"key"=>"value"` or `"key"=>NULL`. */
  function EntryText(e: Entry): Bytes {
    QuotedText(e.0) + [EQUALS, GREATER] + ValueText(e.1)
  }

  /** Nothing before the first pair, `, ` before every other one. */
  function Separator(first: bool): Bytes {
    if first then [] else [COMMA, SPACE]
  }

  /** The pairs of `es` in order, with `Separator(first)` before the first of them. */
  function TextFrom(es: seq<Entry>, first: bool): Bytes
    decreases |es|
  {
    if |es| == 0 then [] else Separator(first) + (EntryText(es[0]) + TextFrom(es[1..], false))
  }

  /** The text form of the pairs `es`, in that order. */
  function TextOf(es: seq<Entry>): Bytes {
    TextFrom(es, true)
  }

  /** The text of a list that starts with `e`. */
  lemma TextFromCons(e: Entry, tail: seq<Entry>, first: bool)
    ensures TextFrom([e] + tail, first) == Separator(first) + (EntryText(e) + TextFrom(tail, false))
  {
    assert ([e] + tail)[0] == e && ([e] + tail)[1..] == tail;
  }

  /** Appending a pair appends its text, after `, ` unless it is the first. */
  lemma {:induction false} TextFromSnoc(es: seq<Entry>, e: Entry, first: bool)
    ensures TextFrom(es + [e], first) == TextFrom(es, first) + (Separator(first && |es| == 0) + EntryText(e))
    decreases |es|
  {
    if |es| == 0 {
      assert es + [e] == [e] + [];
      TextFromCons(e, [], first);
      assert EntryText(e) + [] == EntryText(e);
    } else {
      assert es + [e] == [es[0]] + (es[1..] + [e]);
      TextFromCons(es[0], es[1..] + [e], first);
      TextFromSnoc(es[1..], e, false);
      Associate(Separator(first), EntryText(es[0]), TextFrom(es[1..], false), Separator(false) + EntryText(e));
    }
  }

  /** The text of the first `i + 1` pairs extends that of the first `i`. */
  lemma TextFromPrefix(es: seq<Entry>, i: nat, first: bool)
    requires i < |es|
    ensures TextFrom(es[..i + 1], first) == TextFrom(es[..i], first) + (Separator(first && i == 0) + EntryText(es[i]))
  {
    assert es[..i + 1] == es[..i] + [es[i]];
    TextFromSnoc(es[..i], es[i], first);
  }

  /** Regrouping a concatenation of four parts. */
  lemma Associate(a: Bytes, b: Bytes, c: Bytes, d: Bytes)
    ensures a + (b + (c + d)) == (a + (b + c)) + d
  {
  }

  // ---------------------------------------------------------------------------------------
  // Reading. Each function reads from the start of the unread input `s` and reports how
  // many bytes it consumed.

  /** `consumeExpectedByte`. */
  function ExpectByte(s: Bytes, b: byte): (err: Option<Error>)
    ensures err.None? <==> |s| > 0 && s[0] == b
  {
    if |s| == 0 then Some(ExpectedFoundEnd(b))
    else if s[0] != b then Some(UnexpectedByte(s[0], b))
    else None
  }

  /** `consumeExpected2`: the length is checked before either byte. */
  function Expect2(s: Bytes, one: byte, two: byte): (err: Option<Error>)
    ensures err.None? <==> |s| >= 2 && s[0] == one && s[1] == two
  {
    if |s| < 2 then Some(UnexpectedEndOfString)
    else if s[0] != one then Some(UnexpectedByte(s[0], one))
    else if s[1] != two then Some(UnexpectedByte(s[1], two))
    else None
  }

  /** Puts `t` (read from `n` bytes) in front of a successful read. */
  function Prepend(t: Bytes, n: nat, r: Result<(Bytes, nat), Error>): Result<(Bytes, nat), Error> {
    match r
    case Ok(v) => Ok((t + v.0, n + v.1))
    case Err(e) => Err(e)
  }

  lemma PrependPrepend(a: Bytes, i: nat, b: Bytes, j: nat, r: Result<(Bytes, nat), Error>)
    ensures Prepend(a, i, Prepend(b, j, r)) == Prepend(a + b, i + j, r)
  {
    if r.Ok? {
      assert a + (b + r.value.0) == (a + b) + r.value.0;
    }
  }

  /**
   * The body of a quoted string whose opening quote has been read, unescaped byte by byte
   * (the loop of `consumeDoubleQuotedWithEscapes`) up to and including the closing quote.
   */
  function Unquote(s: Bytes): (r: Result<(Bytes, nat), Error>)
    ensures r.Ok? ==> 0 < r.value.1 <= |s|
    decreases |s|
  {
    if |s| == 0 then Err(EndInQuoted)
    else if s[0] == QUOTE then Ok(([], 1))
    else if s[0] != BACKSLASH then Prepend([s[0]], 1, Unquote(s[1..]))
    else if |s| == 1 then Err(EndInQuoted)
    else if s[1] == BACKSLASH || s[1] == QUOTE then Prepend([s[1]], 2, Unquote(s[2..]))
    else Err(UnexpectedEscape(s[1]))
  }

  /**
   * `consumeDoubleQuoted`: with no `"` left at all the error is `EndInQuoted`, whatever
   * precedes it; otherwise the string is what the unescaping loop reads.
   */
  function Quoted(s: Bytes): (r: Result<(Bytes, nat), Error>)
    ensures r.Ok? <==> Unquote(s).Ok?
    ensures r.Ok? ==> r == Unquote(s)
  {
    if QUOTE !in s then
      UnquoteNeedsQuote(s);
      Err(EndInQuoted)
    else Unquote(s)
  }

  /** The unescaping loop only succeeds on input that holds a closing quote. */
  lemma {:induction false} UnquoteNeedsQuote(s: Bytes)
    ensures Unquote(s).Ok? ==> QUOTE in s
    decreases |s|
  {
    if |s| > 1 && s[0] != QUOTE {
      if s[0] != BACKSLASH {
        UnquoteNeedsQuote(s[1..]);
      } else {
        UnquoteNeedsQuote(s[2..]);
      }
    }
  }

  /** `consumeDoubleQuotedOrNull`: a quoted value, or exactly `NULL`. */
  function Value(s: Bytes): (r: Result<(Option<Bytes>, nat), Error>)
    ensures r.Ok? ==> 0 < r.value.1 <= |s|
  {
    if |s| == 0 then Err(EndInsteadOfValue)
    else if s[0] == LETTER_N then
      match Expect2(s, LETTER_N, LETTER_U)
      case Some(e) => Err(e)
      case None =>
        match Expect2(s[2..], LETTER_L, LETTER_L)
        case Some(e) => Err(e)
        case None => Ok((None, 4))
    else if s[0] != QUOTE then Err(UnexpectedByte(s[0], QUOTE))
    else
      match Quoted(s[1..])
      case Err(e) => Err(e)
      case Ok(q) => Ok((Some(q.0), q.1 + 1))
  }

  /** A pair read from the input, and the number of bytes it took. */
  datatype ParsedPair = ParsedPair(key: Bytes, value: Option<Bytes>, size: nat)

  /**
   * What follows a key of `n` bytes in one iteration of `parseHstore`: `=>` and the value.
   * `t` is the unread input behind the key's closing quote.
   */
  function AfterKey(t: Bytes, key: Bytes, n: nat): (r: Result<ParsedPair, Error>)
    ensures r.Ok? ==> n < r.value.size <= n + |t|
  {
    match Expect2(t, EQUALS, GREATER)
    case Some(e) => Err(e)
    case None =>
      match Value(t[2..])
      case Err(e) => Err(e)
      case Ok(v) => Ok(ParsedPair(key, v.0, n + 2 + v.1))
  }

  /** The body of one iteration of `parseHstore` after the separator: `"key"=>value`. */
  function KeyValue(s: Bytes): (r: Result<ParsedPair, Error>)
    ensures r.Ok? ==> 0 < r.value.size <= |s|
  {
    match ExpectByte(s, QUOTE)
    case Some(e) => Err(e)
    case None =>
      match Quoted(s[1..])
      case Err(e) => Err(e)
      case Ok(q) => AfterKey(s[1 + q.1..], q.0, 1 + q.1)
  }

  /** One iteration of `parseHstore`: `, ` unless it is the first pair, then the pair. */
  function Pair(s: Bytes, first: bool): (r: Result<ParsedPair, Error>)
    ensures r.Ok? ==> 0 < r.value.size <= |s|
  {
    if first then KeyValue(s)
    else
      match Expect2(s, COMMA, SPACE)
      case Some(e) => Err(e)
      case None =>
        match KeyValue(s[2..])
        case Err(e) => Err(e)
        case Ok(p) => Ok(p.(size := p.size + 2))
  }

  /** The loop of `parseHstore` from the unread input `s` with the map `acc` built so far. */
  function ParseFrom(s: Bytes, first: bool, acc: Logical): Result<Logical, Error>
    decreases |s|
  {
    if |s| == 0 then Ok(acc)
    else
      match Pair(s, first)
      case Err(e) => Err(e)
      case Ok(p) => ParseFrom(s[p.size..], false, acc[p.key := p.value])
  }

  /** `parseHstore`, on the logical value. */
  function Parse(s: Bytes): Result<Logical, Error> {
    ParseFrom(s, true, map[])
  }

  // ---------------------------------------------------------------------------------------
  // Quoted strings

  /** Unescaping reads back exactly what escaping wrote, whatever follows the closing quote. */
  lemma {:induction false} UnquoteEscape(x: Bytes, rest: Bytes)
    ensures Unquote(Escape(x) + [QUOTE] + rest) == Ok((x, |Escape(x)| + 1))
    decreases |x|
  {
    var s := Escape(x) + [QUOTE] + rest;
    if |x| > 0 {
      var b := x[0];
      var tail := Escape(x[1..]) + [QUOTE] + rest;
      assert s == EscapeByte(b) + tail;
      UnquoteEscape(x[1..], rest);
      if b == BACKSLASH || b == QUOTE {
        assert s[2..] == tail;
      } else {
        assert s[1..] == tail;
      }
      assert [b] + x[1..] == x;
    }
  }

  /** What the unescaping loop accepts is an escaped string followed by the closing quote. */
  lemma {:induction false} UnquoteIsEscaped(s: Bytes)
    requires Unquote(s).Ok?
    ensures s[..Unquote(s).value.1] == Escape(Unquote(s).value.0) + [QUOTE]
    decreases |s|
  {
    var r := Unquote(s);
    if s[0] == QUOTE {
      assert Escape([]) == [];
    } else if s[0] != BACKSLASH {
      var r' := Unquote(s[1..]);
      UnquoteIsEscaped(s[1..]);
      var t := [s[0]] + r'.value.0;
      assert t[1..] == r'.value.0;
      assert Escape(t) == [s[0]] + Escape(r'.value.0);
      assert s[..r.value.1] == [s[0]] + s[1..][..r'.value.1];
    } else {
      var r' := Unquote(s[2..]);
      UnquoteIsEscaped(s[2..]);
      var t := [s[1]] + r'.value.0;
      assert t[1..] == r'.value.0;
      assert Escape(t) == [BACKSLASH, s[1]] + Escape(r'.value.0);
      assert s[..r.value.1] == [s[0], s[1]] + s[2..][..r'.value.1];
    }
  }

  /**
   * The unescaping loop reads `t` from the first `n` bytes exactly when those bytes are
   * `t` escaped and then the closing quote.
   */
  lemma UnquoteExactly(s: Bytes, t: Bytes, n: nat)
    ensures Unquote(s) == Ok((t, n)) <==> n <= |s| && s[..n] == Escape(t) + [QUOTE]
  {
    if Unquote(s) == Ok((t, n)) {
      UnquoteIsEscaped(s);
    }
    if n <= |s| && s[..n] == Escape(t) + [QUOTE] {
      assert s == Escape(t) + [QUOTE] + s[n..];
      UnquoteEscape(t, s[n..]);
    }
  }

  /** Bytes that are neither `"` nor `\` are copied as they are. */
  lemma {:induction false} UnquotePlainPrefix(s: Bytes, j: nat)
    requires j <= |s|
    requires forall i :: 0 <= i < j ==> s[i] != QUOTE && s[i] != BACKSLASH
    ensures Unquote(s) == Prepend(s[..j], j, Unquote(s[j..]))
    decreases j
  {
    if j == 0 {
      assert s[..0] == [] && s[0..] == s;
      if Unquote(s).Ok? {
        assert [] + Unquote(s).value.0 == Unquote(s).value.0;
      }
    } else {
      UnquotePlainPrefix(s[1..], j - 1);
      assert s[1..][j - 1..] == s[j..];
      PrependPrepend([s[0]], 1, s[1..][..j - 1], j - 1, Unquote(s[j..]));
      assert [s[0]] + s[1..][..j - 1] == s[..j];
    }
  }

  /** A quoted string whose first `j` bytes are plain: they are copied, then unescaping goes on. */
  lemma QuotedPlainPrefix(t: Bytes, j: nat, plain: Bytes, rest: Bytes)
    requires QUOTE in t && j <= |t| && plain == t[..j] && rest == t[j..]
    requires forall i :: 0 <= i < j ==> t[i] != QUOTE && t[i] != BACKSLASH
    ensures Quoted(t) == Prepend(plain, j, Unquote(rest))
  {
    UnquotePlainPrefix(t, j);
  }

  /**
   * The fast path of `consumeDoubleQuoted` is exact: with no `\` before the first `"`, the
   * unescaping loop would read exactly the bytes before that quote.
   */
  lemma FastPathAgrees(s: Bytes)
    requires QUOTE in s
    requires forall i :: 0 <= i < IndexByte(s, QUOTE) ==> s[i] != BACKSLASH
    ensures Quoted(s) == Ok((s[..IndexByte(s, QUOTE)], IndexByte(s, QUOTE) + 1))
  {
    var q := IndexByte(s, QUOTE);
    UnquotePlainPrefix(s, q);
    assert s[q..] != [] && s[q..][0] == QUOTE;
    assert s[..q] + [] == s[..q];
  }

  /**
   * Input that ends anywhere before the closing quote, including right after a `\`,
   * is `EndInQuoted`.
   */
  lemma {:induction false} UnquoteTruncated(s: Bytes, j: nat)
    requires Unquote(s).Ok? && j < Unquote(s).value.1
    ensures Unquote(s[..j]) == Err(EndInQuoted)
    decreases j
  {
    if j > 0 {
      if s[0] != BACKSLASH {
        assert s[0] != QUOTE;
        assert s[..j][1..] == s[1..][..j - 1];
        UnquoteTruncated(s[1..], j - 1);
      } else if j > 1 {
        assert s[..j][2..] == s[2..][..j - 2];
        UnquoteTruncated(s[2..], j - 2);
      }
    }
  }

  /** The same for `consumeDoubleQuoted`. */
  lemma QuotedTruncated(s: Bytes, j: nat)
    requires Quoted(s).Ok? && j < Quoted(s).value.1
    ensures Quoted(s[..j]) == Err(EndInQuoted)
  {
    UnquoteTruncated(s, j);
  }

  // ---------------------------------------------------------------------------------------
  // Values and pairs

  /** `consumeDoubleQuoted` reads back an escaped string, whatever follows its closing quote. */
  lemma QuotedEscape(x: Bytes, rest: Bytes)
    ensures Quoted(Escape(x) + [QUOTE] + rest) == Ok((x, |Escape(x)| + 1))
  {
    var s := Escape(x) + [QUOTE] + rest;
    assert s[|Escape(x)|] == QUOTE;
    UnquoteEscape(x, rest);
  }

  /** The encoder form of a value is read back as that value, whatever follows it. */
  lemma ValueOfText(v: Option<Bytes>, rest: Bytes)
    ensures Value(ValueText(v) + rest) == Ok((v, |ValueText(v)|))
  {
    var s := ValueText(v) + rest;
    match v
    case None =>
      assert s[0] == LETTER_N && s[1] == LETTER_U;
      assert s[2..][0] == LETTER_L && s[2..][1] == LETTER_L;
    case Some(x) =>
      assert s[0] == QUOTE;
      assert s[1..] == Escape(x) + [QUOTE] + rest;
      QuotedEscape(x, rest);
  }

  /** What `consumeDoubleQuotedOrNull` accepts is the encoder form of the value it read. */
  lemma ValueIsText(s: Bytes)
    requires Value(s).Ok?
    ensures s[..Value(s).value.1] == ValueText(Value(s).value.0)
  {
    var r := Value(s).value;
    if s[0] == LETTER_N {
      assert s[2..][0] == s[2] && s[2..][1] == s[3];
      assert s[..4] == [s[0], s[1], s[2], s[3]];
    } else {
      var q := Quoted(s[1..]).value;
      UnquoteIsEscaped(s[1..]);
      assert s[..r.1] == [QUOTE] + s[1..][..q.1];
    }
  }

  /**
   * A value is read from the first `n` bytes exactly when they are its encoder form: `NULL`
   * for a missing value, a quoted string otherwise (so a quoted `"NULL"` is the string).
   */
  lemma ValueExactly(s: Bytes, v: Option<Bytes>, n: nat)
    ensures Value(s) == Ok((v, n)) <==> n <= |s| && s[..n] == ValueText(v)
  {
    if Value(s) == Ok((v, n)) {
      ValueIsText(s);
    }
    if n <= |s| && s[..n] == ValueText(v) {
      assert s == ValueText(v) + s[n..];
      ValueOfText(v, s[n..]);
    }
  }

  /** What follows a key, step by step. */
  lemma AfterKeySteps(t: Bytes, k: Bytes, n: nat, v: Option<Bytes>, m: nat)
    requires |t| >= 2 && t[0] == EQUALS && t[1] == GREATER && Value(t[2..]) == Ok((v, m))
    ensures AfterKey(t, k, n) == Ok(ParsedPair(k, v, n + 2 + m))
  {
  }

  /** What a successful read after a key consists of. */
  lemma AfterKeyParts(t: Bytes, k: Bytes, n: nat)
    requires AfterKey(t, k, n).Ok?
    ensures |t| >= 2 && t[..2] == [EQUALS, GREATER] && Value(t[2..]).Ok?
    ensures AfterKey(t, k, n) == Ok(ParsedPair(k, Value(t[2..]).value.0, n + 2 + Value(t[2..]).value.1))
  {
    assert t[..2] == [t[0], t[1]];
  }

  /** `=>` and a value in encoder form are read back as that value, whatever follows. */
  lemma AfterKeyOfText(t: Bytes, k: Bytes, n: nat, v: Option<Bytes>, rest: Bytes, size: nat)
    requires t == [EQUALS, GREATER] + (ValueText(v) + rest) && size == n + 2 + |ValueText(v)|
    ensures AfterKey(t, k, n) == Ok(ParsedPair(k, v, size))
  {
    ValueOfText(v, rest);
    assert t[2..] == ValueText(v) + rest;
    AfterKeySteps(t, k, n, v, |ValueText(v)|);
  }

  /** What a successful `"key"=>value` read consists of. */
  lemma KeyValueParts(s: Bytes)
    requires KeyValue(s).Ok?
    ensures |s| > 0 && s[0] == QUOTE && Quoted(s[1..]).Ok? && Unquote(s[1..]) == Quoted(s[1..])
    ensures KeyValue(s) == AfterKey(s[1 + Quoted(s[1..]).value.1..], Quoted(s[1..]).value.0, 1 + Quoted(s[1..]).value.1)
  {
  }

  /** Where the parts of a pair in encoder form lie. */
  lemma EntryTextParts(k: Bytes, v: Option<Bytes>, rest: Bytes, n: nat)
    requires n == |Escape(k)| + 1
    ensures var s := EntryText((k, v)) + rest;
      && |s| > 0 && s[0] == QUOTE
      && s[1..] == Escape(k) + [QUOTE] + ([EQUALS, GREATER] + (ValueText(v) + rest))
      && s[1 + n..] == [EQUALS, GREATER] + (ValueText(v) + rest)
      && |EntryText((k, v))| == 1 + n + 2 + |ValueText(v)|
  {
    var s := EntryText((k, v)) + rest;
    assert s == [QUOTE] + (Escape(k) + [QUOTE] + ([EQUALS, GREATER] + (ValueText(v) + rest)));
  }

  /** A pair whose key and the rest after it are each read as `k` and `r`. */
  lemma KeyValueAt(s: Bytes, k: Bytes, n: nat, t: Bytes, r: ParsedPair)
    requires |s| > 0 && s[0] == QUOTE && Quoted(s[1..]) == Ok((k, n)) && s[1 + n..] == t
    requires AfterKey(t, k, 1 + n) == Ok(r)
    ensures KeyValue(s) == Ok(r)
  {
  }

  /** The encoder form of a pair is read back as that pair, whatever follows it. */
  lemma KeyValueOfText(k: Bytes, v: Option<Bytes>, rest: Bytes)
    ensures KeyValue(EntryText((k, v)) + rest) == Ok(ParsedPair(k, v, |EntryText((k, v))|))
  {
    var n := |Escape(k)| + 1;
    var t := [EQUALS, GREATER] + (ValueText(v) + rest);
    EntryTextParts(k, v, rest, n);
    QuotedEscape(k, t);
    AfterKeyOfText(t, k, 1 + n, v, rest, |EntryText((k, v))|);
    KeyValueAt(EntryText((k, v)) + rest, k, n, t, ParsedPair(k, v, |EntryText((k, v))|));
  }

  /** A prefix of `1 + i + 2 + j` bytes, cut where a pair's parts meet. */
  lemma PairSlices(s: Bytes, i: nat, j: nat)
    requires 3 + i + j <= |s|
    ensures s[..1 + i + 2 + j] == [s[0]] + s[1..][..i] + s[1 + i..][..2] + s[1 + i..][2..][..j]
  {
  }

  /** What one `"key"=>value` read accepts is the encoder form of the pair it read. */
  lemma KeyValueIsText(s: Bytes)
    requires KeyValue(s).Ok?
    ensures s[..KeyValue(s).value.size] == EntryText((KeyValue(s).value.key, KeyValue(s).value.value))
  {
    KeyValueParts(s);
    var q := Quoted(s[1..]).value;
    var t := s[1 + q.1..];
    AfterKeyParts(t, q.0, 1 + q.1);
    var r := Value(t[2..]).value;
    UnquoteIsEscaped(s[1..]);
    ValueIsText(t[2..]);
    PairSlices(s, q.1, r.1);
    KeyValueJoin(s, q.0, r.0, q.1, r.1);
  }

  /** The four parts of a pair put back together. */
  lemma KeyValueJoin(s: Bytes, k: Bytes, v: Option<Bytes>, i: nat, j: nat)
    requires 3 + i + j <= |s| && s[0] == QUOTE && s[1..][..i] == Escape(k) + [QUOTE]
    requires s[1 + i..][..2] == [EQUALS, GREATER] && s[1 + i..][2..][..j] == ValueText(v)
    requires s[..1 + i + 2 + j] == [s[0]] + s[1..][..i] + s[1 + i..][..2] + s[1 + i..][2..][..j]
    ensures s[..1 + i + 2 + j] == EntryText((k, v))
  {
  }

  /** A separator in front of a pair that reads is read along with it. */
  lemma PairOfKeyValue(t: Bytes, first: bool, k: Bytes, v: Option<Bytes>, n: nat)
    requires KeyValue(t) == Ok(ParsedPair(k, v, n))
    ensures Pair(Separator(first) + t, first) == Ok(ParsedPair(k, v, |Separator(first)| + n))
  {
    var s := Separator(first) + t;
    assert s[|Separator(first)|..] == t;
  }

  /** The encoder form of a separator and a pair is read back as that pair. */
  lemma PairOfText(first: bool, k: Bytes, v: Option<Bytes>, rest: Bytes)
    ensures Pair(Separator(first) + (EntryText((k, v)) + rest), first)
         == Ok(ParsedPair(k, v, |Separator(first)| + |EntryText((k, v))|))
  {
    KeyValueOfText(k, v, rest);
    PairOfKeyValue(EntryText((k, v)) + rest, first, k, v, |EntryText((k, v))|);
  }

  /** What one iteration of the parse loop accepts is a separator and a pair in encoder form. */
  lemma PairIsText(s: Bytes, first: bool)
    requires Pair(s, first).Ok?
    ensures s[..Pair(s, first).value.size] == Separator(first) + EntryText((Pair(s, first).value.key, Pair(s, first).value.value))
  {
    if first {
      KeyValueIsText(s);
    } else {
      NextPairIsText(s);
    }
  }

  lemma NextPairIsText(s: Bytes)
    requires Pair(s, false).Ok?
    ensures s[..Pair(s, false).value.size] == Separator(false) + EntryText((Pair(s, false).value.key, Pair(s, false).value.value))
  {
    var p := KeyValue(s[2..]).value;
    KeyValueIsText(s[2..]);
    assert s[..p.size + 2] == [s[0], s[1]] + s[2..][..p.size];
  }

  /** A prefix `a + b` split off. */
  lemma SplitAt(s: Bytes, n: nat, a: Bytes, b: Bytes)
    requires n <= |s| && s[..n] == a + b
    ensures s == a + (b + s[n..])
  {
    assert s == s[..n] + s[n..];
  }

  /** One iteration of the parse loop reads exactly one separator-and-pair. */
  lemma PairExactly(s: Bytes, first: bool, k: Bytes, v: Option<Bytes>, n: nat)
    ensures Pair(s, first) == Ok(ParsedPair(k, v, n)) <==> n <= |s| && s[..n] == Separator(first) + EntryText((k, v))
  {
    PairSound(s, first, k, v, n);
    PairComplete(s, first, k, v, n);
  }

  lemma PairSound(s: Bytes, first: bool, k: Bytes, v: Option<Bytes>, n: nat)
    ensures Pair(s, first) == Ok(ParsedPair(k, v, n)) ==> n <= |s| && s[..n] == Separator(first) + EntryText((k, v))
  {
    if Pair(s, first) == Ok(ParsedPair(k, v, n)) {
      PairIsText(s, first);
    }
  }

  lemma PairComplete(s: Bytes, first: bool, k: Bytes, v: Option<Bytes>, n: nat)
    ensures n <= |s| && s[..n] == Separator(first) + EntryText((k, v)) ==> Pair(s, first) == Ok(ParsedPair(k, v, n))
  {
    if n <= |s| && s[..n] == Separator(first) + EntryText((k, v)) {
      SplitAt(s, n, Separator(first), EntryText((k, v)));
      PairOfText(first, k, v, s[n..]);
    }
  }

  // ---------------------------------------------------------------------------------------
  // The whole text

  /** One iteration of the parse loop that reads the pair `k`, `v` from `n` bytes. */
  lemma ParseFromStep(s: Bytes, first: bool, acc: Logical, k: Bytes, v: Option<Bytes>, n: nat, rest: Bytes)
    requires Pair(s, first) == Ok(ParsedPair(k, v, n)) && n <= |s| && s[n..] == rest
    ensures ParseFrom(s, first, acc) == ParseFrom(rest, false, acc[k := v])
  {
  }

  /** Dropping two prefixes. */
  lemma DropPrefixes(a: Bytes, b: Bytes, c: Bytes)
    ensures |a| + |b| <= |a + (b + c)| && (a + (b + c))[|a| + |b|..] == c
  {
  }

  /** The parse loop reads a pair in encoder form and goes on behind it. */
  lemma ParseCons(k: Bytes, v: Option<Bytes>, first: bool, rest: Bytes, acc: Logical)
    ensures ParseFrom(Separator(first) + (EntryText((k, v)) + rest), first, acc) == ParseFrom(rest, false, acc[k := v])
  {
    PairOfText(first, k, v, rest);
    DropPrefixes(Separator(first), EntryText((k, v)), rest);
    ParseFromStep(Separator(first) + (EntryText((k, v)) + rest), first, acc, k, v, |Separator(first)| + |EntryText((k, v))|, rest);
  }

  /** The encoder's text parses back to the pairs stored in order, the later ones winning. */
  lemma {:induction false} ParseText(es: seq<Entry>, first: bool, acc: Logical)
    ensures ParseFrom(TextFrom(es, first), first, acc) == Ok(CollectFrom(acc, es))
    decreases |es|
  {
    if |es| > 0 {
      var (k, v) := es[0];
      ParseCons(k, v, first, TextFrom(es[1..], false), acc);
      ParseText(es[1..], false, acc[k := v]);
    }
  }

  /** Whatever the parse loop accepts is the encoder's text for the pairs it read. */
  lemma {:induction false} ParsedIsText(s: Bytes, first: bool, acc: Logical) returns (es: seq<Entry>)
    requires ParseFrom(s, first, acc).Ok?
    ensures s == TextFrom(es, first)
    ensures ParseFrom(s, first, acc).value == CollectFrom(acc, es)
    decreases |s|
  {
    if |s| == 0 {
      es := [];
    } else {
      var p := Pair(s, first).value;
      var e := (p.key, p.value);
      PairIsText(s, first);
      ParseFromStep(s, first, acc, p.key, p.value, p.size, s[p.size..]);
      var tail := ParsedIsText(s[p.size..], false, acc[p.key := p.value]);
      es := [e] + tail;
      SplitAt(s, p.size, Separator(first), EntryText(e));
      TextFromCons(e, tail, first);
      CollectCons(acc, e, tail);
    }
  }

  /**
   * The language of `parseHstore` is exactly the encoder's output: a text parses to `m`
   * if and only if it is the text of some list of pairs that, stored in order, give `m`.
   */
  lemma ParseCharacterized(s: Bytes, m: Logical)
    ensures Parse(s) == Ok(m) <==> exists es :: s == TextOf(es) && m == Collect(es)
  {
    if Parse(s) == Ok(m) {
      var es := ParsedIsText(s, true, map[]);
      assert s == TextOf(es) && m == Collect(es);
    }
    if exists es :: s == TextOf(es) && m == Collect(es) {
      var es :| s == TextOf(es) && m == Collect(es);
      ParseText(es, true, map[]);
    }
  }

  /** Round trip: parsing the text of any enumeration of `m` gives back `m`. */
  lemma ParseEncoded(es: seq<Entry>, m: Logical)
    requires IsEnumeration(es, m)
    ensures Parse(TextOf(es)) == Ok(m)
  {
    ParseText(es, true, map[]);
    CollectEnumeration(map[], es, m);
    assert map[] + m == m;
  }

  /** The empty text is the empty, non-NULL map. */
  lemma ParseEmpty()
    ensures Parse([]) == Ok(map[])
  {
  }

  /** A single pair in encoder form parses to the map holding just that pair. */
  lemma ParseOne(k: Bytes, v: Option<Bytes>)
    ensures Parse(EntryText((k, v))) == Ok(map[k := v])
  {
    ParseCons(k, v, true, [], map[]);
    assert Separator(true) + (EntryText((k, v)) + []) == EntryText((k, v));
  }

  /** A repeated key keeps the value of its later pair. */
  lemma ParseDuplicateKey(k: Bytes, v1: Option<Bytes>, v2: Option<Bytes>)
    ensures Parse(TextOf([(k, v1), (k, v2)])) == Ok(map[k := v2])
  {
    ParseText([(k, v1), (k, v2)], true, map[]);
    CollectTwice(k, v1, v2);
  }

  /** Storing two pairs with one key leaves the later value. */
  lemma CollectTwice(k: Bytes, v1: Option<Bytes>, v2: Option<Bytes>)
    ensures CollectFrom(map[], [(k, v1), (k, v2)]) == map[k := v2]
  {
    var es: seq<Entry> := [(k, v1), (k, v2)];
    assert es[1..] == [(k, v2)] && es[1..][1..] == [];
    assert CollectFrom(map[], es) == CollectFrom(map[k := v1], [(k, v2)]);
    assert CollectFrom(map[k := v1], [(k, v2)]) == CollectFrom(map[k := v1][k := v2], []);
    assert map[k := v1][k := v2] == map[k := v2];
  }

  /** Every key must be quoted: a first byte other than `"` is rejected. */
  lemma ParseBareKey(s: Bytes)
    requires |s| > 0 && s[0] != QUOTE
    ensures Parse(s) == Err(UnexpectedByte(s[0], QUOTE))
  {
  }

  /** Each next pair must start with exactly `, `. */
  lemma ParseBadSeparator(s: Bytes, acc: Logical)
    requires |s| > 0
    ensures |s| < 2 ==> ParseFrom(s, false, acc) == Err(UnexpectedEndOfString)
    ensures |s| >= 2 && s[0] != COMMA ==> ParseFrom(s, false, acc) == Err(UnexpectedByte(s[0], COMMA))
    ensures |s| >= 2 && s[0] == COMMA && s[1] != SPACE ==> ParseFrom(s, false, acc) == Err(UnexpectedByte(s[1], SPACE))
  {
  }

  /** After a quoted key in encoder form, reading goes on just behind its closing quote. */
  lemma QuotedKey(k: Bytes, rest: Bytes)
    ensures Quoted((QuotedText(k) + rest)[1..]) == Ok((k, |Escape(k)| + 1))
    ensures (QuotedText(k) + rest)[2 + |Escape(k)|..] == rest
  {
    var s := QuotedText(k) + rest;
    assert s[1..] == Escape(k) + [QUOTE] + rest;
    QuotedEscape(k, rest);
  }

  /** A key must be followed by exactly `=>`, and `=>` by a value. */
  lemma ParseKeyWithoutValue(k: Bytes)
    ensures Parse(QuotedText(k)) == Err(UnexpectedEndOfString)
    ensures Parse(QuotedText(k) + [EQUALS]) == Err(UnexpectedEndOfString)
    ensures Parse(QuotedText(k) + [EQUALS, GREATER]) == Err(EndInsteadOfValue)
  {
    QuotedKey(k, []);
    assert QuotedText(k) + [] == QuotedText(k);
    QuotedKey(k, [EQUALS]);
    QuotedKey(k, [EQUALS, GREATER]);
    assert (QuotedText(k) + [EQUALS, GREATER])[4 + |Escape(k)|..] == [];
  }

  /** The `NULL` literal is a missing value, and a quoted `"NULL"` is the string NULL. */
  lemma ParseNullLiteral(k: Bytes)
    ensures Parse(QuotedText(k) + [EQUALS, GREATER] + NULL_LITERAL) == Ok(map[k := None])
    ensures Parse(QuotedText(k) + [EQUALS, GREATER] + QuotedText(NULL_LITERAL)) == Ok(map[k := Some(NULL_LITERAL)])
  {
    ParseOne(k, None);
    ParseOne(k, Some(NULL_LITERAL));
  }

  /** A value starting with `N` must be exactly `NULL`. */
  lemma ValueNullPrefix(s: Bytes)
    requires |s| > 0 && s[0] == LETTER_N
    ensures Value(s).Ok? <==> |s| >= 4 && s[..4] == NULL_LITERAL
    ensures Value(s).Ok? ==> Value(s).value == (None, 4)
  {
  }

  /** Each pair contains a `>`. */
  lemma {:induction false} CountText(es: seq<Entry>, first: bool)
    ensures Count(TextFrom(es, first), GREATER) >= |es|
    decreases |es|
  {
    if |es| > 0 {
      var e := es[0];
      CountText(es[1..], false);
      CountConcat(Separator(first), EntryText(e) + TextFrom(es[1..], false), GREATER);
      CountConcat(EntryText(e), TextFrom(es[1..], false), GREATER);
      CountConcat(QuotedText(e.0) + [EQUALS, GREATER], ValueText(e.1), GREATER);
      CountConcat(QuotedText(e.0), [EQUALS, GREATER], GREATER);
      assert Count([EQUALS, GREATER], GREATER) == 1 by {
        assert [EQUALS, GREATER][..1] == [EQUALS];
        assert [EQUALS][..0] == [];
      }
    }
  }

  /**
   * Counting `>` over-estimates the number of pairs, as the capacity hint of `parseHstore`
   * expects: a parsed map never has more keys than the input has `>` bytes.
   */
  lemma ParsedSizeBound(s: Bytes)
    requires Parse(s).Ok?
    ensures |Parse(s).value| <= Count(s, GREATER)
  {
    var es := ParsedIsText(s, true, map[]);
    CollectSize(map[], es);
    CountText(es, true);
  }
}
