/**
 * Byte strings and the few byte-level helpers from the Go standard library and from
 * `internal/pgio` that the hstore codec relies on: `strings.IndexByte`, `strings.Count`
 * for a one-byte needle, Go's `int32(...)` conversion, `pgio.AppendInt32` and
 * `binary.BigEndian.Uint32` followed by a conversion to `int32`.
 */
module Bytes {
  /** A Go `byte`. */
  type byte = bv8

  /** Go strings and []byte are byte sequences; no UTF-8 interpretation is made. */
  type Bytes = seq<byte>

  const QUOTE: byte := 0x22      // '"'
  const BACKSLASH: byte := 0x5C  // '\\'
  const COMMA: byte := 0x2C      // ','
  const SPACE: byte := 0x20      // ' '
  const EQUALS: byte := 0x3D     // '='
  const GREATER: byte := 0x3E    // '>'
  const LETTER_N: byte := 0x4E   // 'N'
  const LETTER_U: byte := 0x55   // 'U'
  const LETTER_L: byte := 0x4C   // 'L'

  /** The four bytes of the unquoted `NULL` literal. */
  const NULL_LITERAL: Bytes := [LETTER_N, LETTER_U, LETTER_L, LETTER_L]

  /** `strings.IndexByte`: the index of the first `b` in `s`, or -1 when there is none. */
  function IndexByte(s: Bytes, b: byte): (r: int)
    ensures -1 <= r < |s|
    ensures r == -1 <==> b !in s
    ensures 0 <= r ==> s[r] == b && forall i :: 0 <= i < r ==> s[i] != b
  {
    if |s| == 0 then -1
    else if s[0] == b then 0
    else
      var r := IndexByte(s[1..], b);
      assert forall i :: 0 <= i < |s| - 1 ==> s[1..][i] == s[i + 1];
      if r == -1 then -1 else r + 1
  }

  /**
   * `strings.IndexByte(s[from:], b)` shifted back to an index of `s`, the way the parser
   * computes its cached `nextBackslash` and the closing quote.
   */
  function NextIndex(s: Bytes, from: nat, b: byte): (r: int)
    requires from <= |s|
    ensures r == -1 || from <= r < |s|
    ensures r == -1 <==> forall i :: from <= i < |s| ==> s[i] != b
    ensures from <= r ==> s[r] == b && forall i :: from <= i < r ==> s[i] != b
  {
    var i := IndexByte(s[from..], b);
    assert forall j :: from <= j < |s| ==> s[from..][j - from] == s[j];
    if i == -1 then -1 else i + from
  }

  /** Moving the start past bytes that are not `b` does not change the next `b`. */
  lemma NextIndexSkip(s: Bytes, from: nat, to: nat, b: byte)
    requires from <= to <= |s|
    requires forall i :: from <= i < to ==> s[i] != b
    ensures NextIndex(s, to, b) == NextIndex(s, from, b)
  {
  }

  /** `strings.Count(s, string(b))`: the number of occurrences of the byte `b` in `s`. */
  function Count(s: Bytes, b: byte): (n: nat)
    ensures n <= |s|
    ensures n == 0 <==> b !in s
  {
    if |s| == 0 then 0
    else
      assert forall i :: 0 <= i < |s| - 1 ==> s[..|s| - 1][i] == s[i];
      assert b in s <==> b in s[..|s| - 1] || s[|s| - 1] == b;
      Count(s[..|s| - 1], b) + (if s[|s| - 1] == b then 1 else 0)
  }

  /** Counting is additive over concatenation. */
  lemma {:induction false} CountConcat(a: Bytes, c: Bytes, b: byte)
    ensures Count(a + c, b) == Count(a, b) + Count(c, b)
    decreases |c|
  {
    if |c| == 0 {
      assert a + c == a;
    } else {
      var c' := c[..|c| - 1];
      assert (a + c)[..|a + c| - 1] == a + c';
      CountConcat(a, c', b);
    }
  }

  /** The count over a prefix only grows as the prefix grows. */
  lemma CountPrefixMonotone(s: Bytes, i: nat, j: nat, b: byte)
    requires i <= j <= |s|
    ensures Count(s[..i], b) <= Count(s[..j], b)
  {
    assert s[..j] == s[..i] + s[i..j];
    CountConcat(s[..i], s[i..j], b);
  }

  /** A prefix that is extended by an occurrence of `b` counts one more. */
  lemma CountPrefixStep(s: Bytes, i: nat, b: byte)
    requires i < |s| && s[i] == b
    ensures Count(s[..i + 1], b) == Count(s[..i], b) + 1
  {
    assert s[..i + 1][..i] == s[..i];
  }

  const TWO_31: int := 0x8000_0000
  const TWO_32: int := 0x1_0000_0000

  predicate IsInt32(x: int) {
    -TWO_31 <= x < TWO_31
  }

  /** Go's `int32(n)` conversion: keeps the low 32 bits of `n` as a two's complement value. */
  function Int32(n: int): (r: int)
    ensures IsInt32(r)
    ensures IsInt32(n) ==> r == n
    ensures (n - r) % TWO_32 == 0
  {
    (n + TWO_31) % TWO_32 - TWO_31
  }

  /**
   * The four bytes `pgio.AppendInt32` appends for `x`: big-endian, two's complement.
   * `internal/pgio` is not part of this model; this is its assumed behaviour.
   */
  function Be32(x: int): (r: Bytes)
    requires IsInt32(x)
    ensures |r| == 4
  {
    BigEndianBytes(if x < 0 then x + TWO_32 else x, 4)
  }

  /** The low `n` bytes of `u`, most significant first. */
  function BigEndianBytes(u: nat, n: nat): (r: Bytes)
    ensures |r| == n
  {
    if n == 0 then [] else BigEndianBytes(u / 0x100, n - 1) + [ByteOf(u % 0x100)]
  }

  /** The byte whose value is `n`, a Go `byte(n)` of a value that fits. */
  function ByteOf(n: nat): (b: byte)
    requires n < 0x100
    ensures b as int == n
  {
    if n == 0 then 0 else ByteOf(n - 1) + 1
  }

  /** `0x100` to the power `n`. */
  function Pow256(n: nat): nat {
    if n == 0 then 1 else 0x100 * Pow256(n - 1)
  }

  /** `BigEndian` reads back what `BigEndianBytes` writes for a value that fits. */
  lemma {:induction false} BigEndianOfBytes(u: nat, n: nat)
    requires u < Pow256(n)
    ensures BigEndian(BigEndianBytes(u, n)) == u
  {
    if n > 0 {
      var r := BigEndianBytes(u, n);
      assert r[..|r| - 1] == BigEndianBytes(u / 0x100, n - 1);
      BigEndianOfBytes(u / 0x100, n - 1);
    }
  }

  /** `pgio.AppendInt32(buf, x)`. */
  function AppendInt32(buf: Bytes, x: int): (r: Bytes)
    requires IsInt32(x)
    ensures |r| == |buf| + 4 && r[..|buf|] == buf
  {
    buf + Be32(x)
  }

  /** `binary.BigEndian.Uint32(s[at:])`: the unsigned big-endian value of four bytes. */
  function Uint32At(s: Bytes, at: nat): (u: int)
    requires at + 4 <= |s|
    ensures 0 <= u < TWO_32
  {
    var t := s[at..at + 4];
    BigEndian4(t);
    BigEndian(t)
  }

  /** The unsigned big-endian value of a byte string. */
  function BigEndian(s: Bytes): (u: nat)
  {
    if |s| == 0 then 0 else BigEndian(s[..|s| - 1]) * 0x100 + s[|s| - 1] as int
  }

  /** Four bytes, most significant first. */
  lemma BigEndian4(t: Bytes)
    requires |t| == 4
    ensures BigEndian(t) == (((t[0] as int) * 0x100 + t[1] as int) * 0x100 + t[2] as int) * 0x100 + t[3] as int
  {
    assert t[..3][..2] == t[..2] && t[..2][..1] == t[..1] && t[..1][..0] == [];
    assert BigEndian(t[..1]) == t[0] as int;
    assert BigEndian(t[..2]) == (t[0] as int) * 0x100 + t[1] as int;
    assert BigEndian(t[..3]) == ((t[0] as int) * 0x100 + t[1] as int) * 0x100 + t[2] as int;
  }

  /** `int(int32(binary.BigEndian.Uint32(s[at:])))`: the signed 32-bit value stored at `at`. */
  function ReadInt32(s: Bytes, at: nat): (x: int)
    requires at + 4 <= |s|
    ensures IsInt32(x)
  {
    Int32(Uint32At(s, at))
  }

  /** Reading back the four bytes written for `x` gives `x`. */
  lemma ReadBe32(s: Bytes, at: nat, x: int)
    requires IsInt32(x) && at + 4 <= |s| && s[at..at + 4] == Be32(x)
    ensures ReadInt32(s, at) == x
  {
    assert Pow256(4) == TWO_32;
    BigEndianOfBytes(if x < 0 then x + TWO_32 else x, 4);
  }

  /** A suffix cut at a later point: its two parts. */
  lemma SplitSlice(s: Bytes, at: nat, to: nat)
    requires at <= to <= |s|
    ensures s[at..][..to - at] == s[at..to] && s[at..][to - at..] == s[to..]
  {
  }

  /** Regrouping a concatenation of three parts. */
  lemma Concat3(a: Bytes, b: Bytes, c: Bytes)
    ensures a + b + c == a + (b + c)
  {
  }

  /** What follows a prefix is the rest of the concatenation. */
  lemma DropConcat(a: Bytes, b: Bytes)
    ensures (a + b)[|a|..] == b
  {
  }
}
