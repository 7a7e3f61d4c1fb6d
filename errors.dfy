/** The error kinds the hstore codec returns; each stands for one error site of the Go code. */
module HstoreErrors {
  import opened Bytes

  datatype Error =
    /** `consumeExpectedByte` at the end of the input: "expected ...; found end". */
    | ExpectedFoundEnd(expected: byte)
    /** `unexpectedByteErr`: "expected ...; found ...". */
    | UnexpectedByte(found: byte, expected: byte)
    /** `consumeExpected2` with fewer than two bytes left: "unexpected end of string". */
    | UnexpectedEndOfString
    /** `errEOSInQuoted`: "found end before closing double-quote". */
    | EndInQuoted
    /** "unexpected escape in quoted string": a byte other than `\` or `"` after `\`. */
    | UnexpectedEscape(found: byte)
    /** `consumeDoubleQuotedOrNull` at the end of the input: "found end instead of value". */
    | EndInsteadOfValue
    /** The binary decoder's "hstore incomplete", carrying the whole input. */
    | Incomplete(src: Bytes)
}
