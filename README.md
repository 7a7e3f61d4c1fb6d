# hstore codec, modelled in Dafny

This project models the PostgreSQL `hstore` codec of the faster pgx hstore package. The
package has two value types:

- `Hstore`, a Go `map[string]pgtype.Text`;
- `HstoreCompat`, a `map[string]*string`.

A nil map is SQL NULL. Inside a map, a key can have no value (NULL) or a string value.
The model covers these parts of the codec:

- **Text parser.** The `hstoreParser` byte scanner keeps a read position `pos` and a cached
  `nextBackslash` index. It drives `parseHstore`, `parseHstoreCompat` and the two text scan
  plans.
- **Text encoders.** They quote every key and value and write a missing value as bare `NULL`.
- **Binary encoders.** They write a big-endian int32 pair count, then each pair as a
  length-prefixed key and a length-prefixed value. A length of -1 means NULL.
- **Binary decoders.** Both read the input through one shared copy of `src[4:]`.
- **The `PGXToFasterHstore` adapter.**

Strings are byte sequences (`seq<bv8>`). Go's `int32(...)` conversion is modelled with
wrap-around. The runtime conditions that make the Go code panic appear as a `Panicked`
outcome.

## How the model is organised

- `bytes.dfy`, module `Bytes`: the byte-level helpers.
  - `strings.IndexByte` and `strings.Count`.
  - Go's `int32` conversion.
  - `pgio.AppendInt32` and `binary.BigEndian.Uint32`.
- `errors.dfy`, module `HstoreErrors`: one error kind per error site of the Go code.
  Messages are not modelled.
- `hstore_values.dfy`, module `HstoreValues`: the value types.
  - `Hstore` is `Option<map<Bytes, Text>>`.
  - `HstoreCompat` is `Option<PtrMap>`. A pointer is an index into a backing list of
    strings, which stands for `valueStrings`.
  - Both have a logical view `map<Bytes, Option<Bytes>>`.
  - Go's unordered `range` over a map is replaced by an explicit enumeration of the map's
    entries. Every encoder property is proved for every enumeration, so it holds whatever
    order the runtime picks.
  - This module also holds the adapter.
- `text_format.dfy`, module `TextFormat`:
  - what the encoders write, as functions (`EntryText`, `TextOf`);
  - what one iteration of the parser reads, as functions on the unread suffix (`Unquote`,
    `Quoted`, `Value`, `KeyValue`, `Pair`, `ParseFrom`, `Parse`);
  - the grammar lemmas.
- `text_parser.dfy`, module `TextParser`: the `HstoreParser` class and the parse loops.
  Each method is proved to compute the reading functions of `TextFormat`.
- `text_encoder.dfy`, module `TextEncoder`: the two text encoders.
- `binary_format.dfy`, module `BinaryFormat`:
  - the binary layout (`Encoded`);
  - the decoder as a function (`ReadPair`, `DecodeFrom`, `DecodeBinary`,
    `DecodeBinaryCompat`);
  - a corrected decoder, `DecodeBinaryChecked`;
  - the round-trip and truncation lemmas.
- `binary_codec.dfy`, module `BinaryCodec`: the binary encoders and the two decoders with
  their loops. The methods are proved against `BinaryFormat`.

## Model

| member | source | states |
|---|---|---|
| HstoreValues.NewText | hstore.go:68-71 | The text is present and holds exactly `s`. |
| HstoreValues.PGXToFasterHstore | hstore.go:73-84 | A nil pointer becomes an invalid `Text` with an empty string. A non-nil pointer becomes a present text holding the string it points to, so the result is the `Hstore` form of the dereferenced map. A nil map gives an empty, non-nil map. |
| HstoreValues.ViewAsHstore | hstore_test.go:13-25 | Converting `PGXToFasterHstore`'s result back as `fasterToOrig` does gives the same keys. NULL maps back to NULL and a present string to an equal string. |
| HstoreValues.AsHstoreViewMap | hstore.go:272-274 | Model lemma linking the decoder's writes to the logical view. An `Hstore` equals the map rebuilt from its logical view exactly when every NULL text carries the empty string, as every decoder writes it. |
| HstoreValues.StoreString | hstore_compat.go:309-311 | Appending a present value to `valueStrings` and pointing the key at the new last slot keeps the `HstoreCompat` map well formed and unaliased. Its logical value is updated at that key only. |
| HstoreValues.StoreNil | hstore_compat.go:312-314 | Storing a nil pointer keeps the map well formed and unaliased, and updates the logical value at that key to NULL. |
| HstoreValues.StoreSlot | hstore_compat.go:220-224 | Filling slot `i` of `valueStrings` and pointing the key at it keeps the map well formed and unaliased. Later pairs use later slots, and the logical value changes at that key only. |
| HstoreValues.CollectEnumeration | hstore.go:518 | Model lemma about the parser's and decoders' `result[key] = value` writes, where a later pair overrides an earlier one. Storing the pairs of any enumeration of a map into `acc` one by one gives `acc` overridden by that map, whatever the order. |
| HstoreValues.CollectSize | hstore.go:518 | Storing `n` pairs into a map adds at most `n` keys. |
| HstoreValues.EnumerationExists | hstore.go:153 | Every map has an enumeration of its entries, as Go's `range` provides. |
| HstoreValues.DistinctKeysCount | hstore.go:151-153 | An enumeration with distinct keys has as many keys as pairs, so the count written from `len(hstore)` is the number of pairs the loop writes. |
| HstoreValues.DerefsToDeref | hstore_compat.go:224-226 | The key-by-key description of the decoder's pointer map holds exactly when that map dereferences to the logical value. |
| Bytes.IndexByte | hstore.go:384 | Gives the first index of the byte, or -1 exactly when the byte does not occur. |
| Bytes.NextIndex | hstore.go:398-401 | Finds the first occurrence at or after `from`, or gives -1 exactly when there is none, as `IndexByte(str[pos:])` plus `pos` computes it. |
| Bytes.Count | hstore.go:486 | Gives at most the length, and 0 exactly when the byte is absent. |
| Bytes.CountConcat | hstore.go:486 | The count over a concatenation is the sum of the counts of its parts. |
| Bytes.Int32 | hstore.go:151 | Go's `int32(n)` keeps the value when it fits, always lies in the int32 range, and is congruent to `n` modulo 2^32. |
| Bytes.AppendInt32 | hstore.go:151 | Appends four bytes and keeps the buffer as a prefix. |
| Bytes.ReadBe32 | hstore.go:242 | `int32(binary.BigEndian.Uint32(...))` reads back every int32 that `pgio.AppendInt32` wrote, negative ones included. |
| Bytes.BigEndianOfBytes | hstore.go:242 | Reading `n` big-endian bytes gives back any value below 256^n that was written in them. |
| TextParser.HstoreParser.constructor | hstore.go:324-330 | `newHSP` starts at position 0 with `nextBackslash` set to the first `\` of the input, or -1. |
| TextParser.HstoreParser.AtEnd | hstore.go:332-334 | At the end exactly when nothing is left to read. |
| TextParser.HstoreParser.Consume | hstore.go:337-344 | At the end, returns `(0, true)` and does not move. Otherwise returns the byte at `pos` and advances by one. `nextBackslash` is unchanged. |
| TextParser.HstoreParser.ConsumeExpectedByte | hstore.go:351-360 | Errs at the end or on a different byte, and otherwise consumes exactly that byte. The error is the one `ExpectByte` gives. Consuming a byte other than `\` keeps the cache exact. |
| TextParser.HstoreParser.ConsumeExpected2 | hstore.go:364-376 | Fewer than two bytes left gives "unexpected end of string". A wrong first or second byte gives an unexpected-byte error for that byte. Otherwise it advances by two, and `pos` moves only on success. |
| TextParser.HstoreParser.ConsumeDoubleQuoted | hstore.go:382-403 | Returns what `Quoted` reads from the unread input, whichever path is taken. `FastPathQuoted` and `SlowPathQuoted` state when each path runs and what it reads. `pos` moves just past the closing quote. On success `nextBackslash` is again the first `\` at or after `pos`. |
| TextParser.HstoreParser.Resync | hstore.go:398-401 | After the slow path, `nextBackslash` becomes the first `\` at or after `pos`, or -1 when none is left, and `pos` does not move. |
| TextParser.HstoreParser.ConsumeDoubleQuotedWithEscapes | hstore.go:407-438 | Copies the bytes before the first backslash, then unescapes byte by byte. The result is exactly the copied prefix joined with what `Unquote` reads from the backslash on, including its errors. |
| TextParser.HstoreParser.ConsumePairSeparator | hstore.go:441-443 | Expects exactly `, `. |
| TextParser.HstoreParser.ConsumeKVSeparator | hstore.go:446-448 | Expects exactly `=>`. |
| TextParser.HstoreParser.ConsumeDoubleQuotedOrNull | hstore.go:451-479 | Returns the value `Value` reads: exactly `NULL` is an invalid text, a quoted string is a present text, and the errors are those `Value` gives. The parser ends just after the value, with the cache exact. |
| TextParser.HstoreParser.ConsumeKeyValue | hstore.go:498-516 | One key and value of the loop is what `KeyValue` reads, with the same errors. |
| TextParser.HstoreParser.ConsumePair | hstore.go:490-516 | One iteration of the loop, separator included, is what `Pair` reads, with the same errors. |
| TextParser.ParseHstore | hstore.go:481-522 | Succeeds exactly when `Parse` does. It returns the parsed map as texts, or `Parse`'s error. |
| TextParser.ParseHstoreCompat | hstore_compat.go:270-318 | Accepts exactly the inputs `parseHstore` accepts, with the same errors. On success the `HstoreCompat` map is well formed and unaliased, and it dereferences to the same logical value. `valueStrings` never outgrows the `strings.Count(s, ">")` capacity. |
| TextParser.ScanText | hstore.go:283-299 | A nil source gives a nil map. Otherwise the result is `parseHstore`'s. |
| TextParser.ScanTextCompat | hstore_compat.go:235-251 | A nil source gives a nil map. Otherwise the result is `parseHstoreCompat`'s. |
| TextParser.FastPathQuoted | hstore.go:388-393 | When `nextBackslash` is -1 or past the closing quote, `Quoted` reads exactly `str[pos:closeQuote]`, and the cached index stays exact after `closeQuote+1`. |
| TextParser.SlowPathQuoted | hstore.go:396-401 | Otherwise the first backslash lies before the closing quote. What `Quoted` reads is the plain prefix followed by the unescaping from that backslash on. |
| TextParser.PairCountsGreater | hstore_compat.go:273-278 | Each pair the loop reads consumes at least one `>`. |
| TextFormat.FastPathAgrees | hstore.go:384-393 | With no backslash before the first quote, the unescaping loop reads exactly the bytes before that quote. This is the fast path's result. |
| TextFormat.UnquoteEscape | hstore.go:421-433 | Unescaping reads back exactly what `quoteArrayReplacer` wrote, up to the closing quote, whatever follows. |
| TextFormat.UnquoteExactly | hstore.go:416-437 | The unescaping loop succeeds with `(t, n)` exactly when the first `n` bytes are `t` escaped, followed by a quote. |
| TextFormat.UnquoteTruncated | hstore.go:418-428 | Any input cut before the closing quote gives "found end before closing double-quote", including a cut just after a `\`. |
| TextFormat.QuotedTruncated | hstore.go:384-386 | The same holds for the fast and slow paths together. |
| TextFormat.ValueNullPrefix | hstore.go:458-468 | A value starting with `N` is accepted exactly when it is `NULL`, which gives NULL. |
| TextFormat.ValueExactly | hstore.go:451-479 | `Value` reads `(v, n)` exactly when the first `n` bytes are `v` written as the encoder writes it. |
| TextFormat.PairExactly | hstore.go:489-516 | One iteration reads `(k, v)` from `n` bytes exactly when those bytes are the separator and the encoder's text of that pair. |
| TextFormat.ParseText | hstore.go:489-519 | The text of any list of pairs parses to those pairs stored in order. |
| TextFormat.ParsedIsText | hstore.go:489-519 | Whatever parses is the text of some list of pairs, and the parse result stores that list. |
| TextFormat.ParseCharacterized | hstore.go:481-522 | `Parse(s)` gives `m` exactly when `s` is the encoder's text of a list of pairs that stores to `m`. |
| TextFormat.ParseEncoded | hstore.go:170-207 | Parsing the text encoding of any enumeration of a map gives back that map. |
| TextFormat.ParseEmpty | hstore.go:486-489 | Empty text parses to an empty map. |
| TextFormat.ParseOne | hstore.go:495-518 | A single pair parses to the one-entry map. |
| TextFormat.ParseDuplicateKey | hstore.go:518 | A repeated key keeps the later pair's value. |
| TextFormat.ParseBareKey | hstore.go:498-501 | A key not starting with `"` is the error "expected '\"'", naming the byte found. |
| TextFormat.ParseBadSeparator | hstore.go:364-376 | A second pair without exactly `, ` before it is an error. With fewer than two bytes left the error is "unexpected end of string"; otherwise it is an unexpected-byte error naming the first wrong byte. |
| TextFormat.ParseKeyWithoutValue | hstore.go:452-455 | A key with no `=>`, or with `=>` and no value after it, is an error: "unexpected end of string" or "found end instead of value". |
| TextFormat.ParseNullLiteral | hstore.go:456-468 | Bare `NULL` is a NULL value, and a quoted `"NULL"` is the present string `NULL`. |
| TextFormat.ParsedSizeBound | hstore_compat.go:273-278 | A parsed map has at most as many keys as the input has `>` bytes. |
| TextEncoder.EncodeText | hstore.go:170-207 | A nil map gives nil. Otherwise the result is `buf` followed by each pair of the enumeration, in order: `"`, the escaped key, `"=>`, then either `"`, the escaped value and `"`, or bare `NULL`. Pairs are separated by `, `. The text parses back to the map. |
| TextEncoder.EncodeTextCompat | hstore_compat.go:120-157 | The same, with a nil pointer written as `NULL` and a present value dereferenced. The text parses back to the dereferenced map. |
| BinaryCodec.EncodeBinary | hstore.go:141-166 | A nil map gives nil. Otherwise the result is `buf`, then `int32(len(map))` big-endian, then each pair as key length, key and either `-1` or value length and value. Its length is `len(buf)` plus 4 plus the payload. When every length fits in an int32, the decoder reads back the map. |
| BinaryCodec.EncodeBinaryCompat | hstore_compat.go:91-116 | The same for the `HstoreCompat` map: a nil pointer writes `-1`, and a present one its length and bytes. The output decodes to the dereferenced map. |
| BinaryCodec.AppendPairs | hstore.go:153-163 | The pair loop appends exactly the binary form of each pair of the enumeration, in order. |
| BinaryCodec.AppendPairsCompat | hstore_compat.go:103-113 | The same for the `HstoreCompat` map, with each present pointer dereferenced and nil written as the length -1. |
| BinaryCodec.EncodedDecodes | hstore.go:229-279 | The bytes the binary encoder appends decode to the encoded map, whenever the lengths fit in an int32. |
| BinaryCodec.EncodedDecodesCompat | hstore_compat.go:179-231 | The same for the compatible encoder and decoder. |
| BinaryCodec.ScanBinary | hstore.go:229-279 | Gives `DecodeBinary`'s outcome. A nil source is a nil map, and a decoded pair stores a present text or `Text{"", false}`. |
| BinaryCodec.ScanPairs | hstore.go:249-276 | The counted loop from offset 4 gives the outcome of `DecodeFrom`. |
| BinaryCodec.NextPair | hstore.go:249-276 | One pass of the loop, seen from the loop. When the pass stops the loop, the outcome of the remaining passes is the pass's error or panic. Otherwise the remaining passes continue from the new read pointer with the pair stored. |
| BinaryCodec.ScanBinaryCompat | hstore_compat.go:179-231 | Gives `DecodeBinaryCompat`'s outcome. A decoded value is a well-formed, unaliased pointer map that dereferences to the decoded map. |
| BinaryCodec.ScanPairsCompat | hstore_compat.go:195-228 | The counted loop from offset 4 gives the outcome of `DecodeFrom`. A decoded value has exactly `pairCount` backing strings, as `make([]string, pairCount)` allocates, and every pointer lies below `pairCount`. The map is well formed and unaliased, and it dereferences to the decoded map. |
| BinaryCodec.StoreSlotPair | hstore_compat.go:220-227 | One store of the loop: a present value fills slot `i` and the key points at it, and a NULL value stores nil. The state stays well formed and unaliased, with pointers below `i + 1`, and dereferences to the updated map. |
| BinaryCodec.ReadStep | hstore.go:250-275 | One loop body, reading through the shared copy `src[4:]` at offset `rp-4`, reads exactly the bytes `src[rp:rp+keyLen]` and `src[rp:rp+valueLen]` at the read pointer. It gives `ReadPair`'s result with its checks and panics. |
| BinaryFormat.NegativeCountDecoded | hstore.go:242-249 | A negative pair count reads no pair: `make` of a map takes a negative hint as 0, so the result is an empty map. The compatible decoder panics in `make([]string, pairCount)` instead. |
| BinaryFormat.CompatAgrees | hstore_compat.go:179-231 | The two decoders agree on every input except a negative pair count, where the compatible one panics. |
| BinaryFormat.StepShortKey | hstore.go:256-264 | A key, or the value-length field after it, that runs past the end is "hstore incomplete" in both decoders. |
| BinaryFormat.StepShortValue | hstore.go:262-270 | A value running past the end panics as written, and is "hstore incomplete" in the corrected decoder. |
| BinaryFormat.DecodeEntries | hstore.go:249-276 | The loop reads back every pair written at the read pointer and stores them in order. |
| BinaryFormat.RoundTrip | hstore.go:141-166 | The count field reads back as the number of pairs. Decoding the encoding of any list of pairs whose lengths fit gives those pairs stored in order. |
| BinaryFormat.RoundTripMap | hstore.go:141-166 | Decoding the binary encoding of any enumeration of a map gives back that map, with either decoder. |
| BinaryFormat.TruncatedEncoding | hstore.go:239-264 | Cutting an encoding short is "hstore incomplete" in the corrected decoder. As written it is "hstore incomplete" or a value-out-of-range panic, and never a wrong value. |
| BinaryFormat.CheckedAgrees | hstore.go:268-270 | The decoder as written and the corrected one differ only where the first panics on a value running past the end and the second returns "hstore incomplete". |
| BinaryFormat.TruncatedValuePanics | hstore.go:268-270 | A concrete 13-byte input whose value length runs past the end: the decoder as written panics, and the corrected one returns "hstore incomplete". |
| BinaryFormat.NegativeKeyLengthPanics | hstore.go:253-259 | A concrete 8-byte input with one pair whose key length is -1: the length check lets it through and both decoders panic in the key slice. |
| BinaryFormat.EncodedSize | hstore.go:147-165 | The encoding has 4 bytes plus, per pair, 8 bytes, the key and a present value. |

## Left out

- `queryHstoreOID` and `RegisterHstore` are left out. They query a live database.
- The plan dispatch (`PlanEncode`, `PlanScan`, `FormatSupported`, `PreferredFormat`) is left
  out. It works by Go type assertions. Each encoder and scan plan is modelled directly.
- `codecScan`, `codecDecodeToTextFormat`, `DecodeValue`, `DecodeDatabaseSQLValue` and the
  `database/sql` methods `Scan` and `Value` are left out. They are thin glue over pgtype code
  that is not part of this model. Two defects there are not modelled:
  - `HstoreCompat.Value` encodes through the `Hstore` codec, whose plan is nil for that type
    (hstore_compat.go:57).
  - `HstoreCompatCodec.DecodeValue` scans into an `*Hstore` (hstore_compat.go:262-263).
- Error messages are not modelled. An error is a tagged `Error` kind; "hstore incomplete"
  carries the input.
- Allocation behaviour is not modelled: capacity hints, `strings.Builder`, the shared backing
  string, and whether a result shares memory with the input. Only values are modelled. For the
  `>`-count capacity, the model proves that the hint bounds the number of strings stored.
- A pointer into `valueStrings` is modelled as a slot index into one list of strings. The
  model does not capture pointer identity or which backing array a pointer refers to. The proved
  bound (no more strings than the `>`-count capacity) is what keeps `append` from reallocating.
- `quoteArrayReplacer` and `pgio.AppendInt32` are declared outside the files modelled here.
  They are written as assumed definitions (`Escape`, `AppendInt32`).
- A nil encoder buffer and an empty one are not distinguished. The binary encoders always
  append the pair count, so their nil clause holds in Go as stated.
- TextEncoder.EncodeText: Go returns `buf` unchanged for an empty non-nil map, so with a nil
  `buf` the result is nil, as for a nil map. The clause `h.None? <==> r.None?` holds in Go only
  for a non-nil buffer.
- TextEncoder.EncodeTextCompat: the same holds for the compatible text encoder.
- Go's map iteration order is an explicit enumeration parameter of each encoder.
- UTF-8 validity is not modelled: the codec works on bytes.
- The benchmarks and the database-backed fuzz test are not modelled.
- BinaryCodec.EncodeBinary: its round-trip clause needs every length and the pair count below
  2^31. Beyond that, Go's `int32(len(...))` wraps, and the output is stated exactly with that
  wrap-around, but it no longer decodes.
- BinaryCodec.EncodeBinaryCompat: the same bound applies to its round-trip clause.
- BinaryFormat.DecodeBinary: a negative key length passes the length check and then panics in
  the slice, as written (BinaryFormat.NegativeKeyLengthPanics). No corrected variant of this is
  given.
- The compatible decoder also panics on a negative pair count, as written.
- `hstore.go`'s decoder returns an empty map for a negative pair count, because Go's `make` of
  a map treats a negative size hint as 0. Only the compatible decoder panics, in
  `make([]string, ...)`.
- A binary value that runs past the end of the input panics (see Findings).
- The text parser loops are each split into the main method and a per-iteration method
  (`ConsumePair`, `ConsumeKeyValue`). Each binary decoder loop sits in a helper method
  (`ScanPairs`, `ScanPairsCompat`), and so does each binary encoder loop (`AppendPairs`,
  `AppendPairsCompat`). The loops' logic is unchanged.

## Findings

| source | as written | input that shows it | evidently intended | confidence | as-written member | corrected member |
|---|---|---|---|---|---|---|
| hstore.go:268-270 (also hstore_compat.go:220-222) | A non-negative value length is sliced out of `keyValueString` without checking that that many bytes remain, so a binary value cut short panics with a slice-bounds error. | `[0,0,0,1, 0,0,0,1, 0x6B, 0,0,0,1]`: one pair, key `k`, value length 1, no value byte. | Return "hstore incomplete", as the decoder does for every other short field. | not executed | BinaryFormat.TruncatedValuePanics | BinaryFormat.CheckedAgrees |
