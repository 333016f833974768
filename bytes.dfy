/**
 * Byte strings and the handful of PHP string primitives the strength checker
 * relies on, stated in the C locale (ASCII classification only).
 */
module Bytes {

  /** One byte of a PHP string. */
  type byte = b: int | 0 <= b < 256

  /** A PHP string: a sequence of bytes (no encoding is implied). */
  type bytes = seq<byte>

  /** PHP_INT_MAX on a 64-bit build. */
  const IntMax: int := 0x7fff_ffff_ffff_ffff

  datatype Option<+T> = None | Some(value: T)

  /**
   * The result of a computation that may raise PHP's ArithmeticError
   * ("bit shift by negative number"); failure-compatible so that `:-`
   * propagates the error the way an uncaught exception does.
   */
  datatype Outcome<+T> = Ok(value: T) | NegativeShift {
    predicate IsFailure() { NegativeShift? }
    function PropagateFailure<U>(): Outcome<U> requires NegativeShift? { NegativeShift }
    function Extract(): T requires Ok? { value }
  }

  /** The bytes of a string literal (every literal used here is ASCII). */
  function Ascii(s: string): (r: bytes)
    ensures |r| == |s|
  {
    seq(|s|, i requires 0 <= i < |s| => s[i] as int % 256)
  }

  /** PHP truthiness of a string: only "" and "0" are false. */
  predicate Truthy(s: bytes) {
    s != [] && s != ['0' as byte]
  }

  // ctype_* of a single byte in the C locale
  predicate IsDigit(b: byte) { '0' as int <= b <= '9' as int }
  predicate IsLower(b: byte) { 'a' as int <= b <= 'z' as int }
  predicate IsUpper(b: byte) { 'A' as int <= b <= 'Z' as int }
  predicate IsAlpha(b: byte) { IsLower(b) || IsUpper(b) }
  predicate IsSpace(b: byte) { b == ' ' as int || 0x09 <= b <= 0x0d }

  /** ctype_alpha on a string: non-empty and every byte a letter. */
  predicate CtypeAlpha(s: bytes) {
    |s| > 0 && forall i | 0 <= i < |s| :: IsAlpha(s[i])
  }

  /** ctype_space on a string: non-empty and every byte white space. */
  predicate CtypeSpace(s: bytes) {
    |s| > 0 && forall i | 0 <= i < |s| :: IsSpace(s[i])
  }

  /** Compat::is_ascii: the first byte of a non-empty string is below 128. */
  predicate IsAscii(c: bytes) {
    |c| >= 1 && c[0] <= 127
  }

  /** unpack('C') reads one byte: only the first byte decides, and for a single byte is_ascii is "below 128". */
  lemma IsAsciiFirstByte(c: bytes, b: byte)
    ensures IsAscii(c) <==> c != [] && IsAscii([c[0]])
    ensures IsAscii([b]) <==> b < 128
  {
  }

  /** `$s[$n]`: the one-byte string at an offset, or "" past the end. */
  function ByteAt(s: bytes, n: nat): (r: bytes)
    ensures |r| <= 1
  {
    if n < |s| then [s[n]] else []
  }

  /** Binary::safeSubstr($s, $start) with a non-negative start. */
  function Suffix(s: bytes, start: nat): (r: bytes)
    ensures |r| == if start <= |s| then |s| - start else 0
  {
    if start <= |s| then s[start..] else []
  }

  /** Binary::safeSubstr($s, $start, $len) with a non-negative start and length. */
  function Substr(s: bytes, start: nat, len: nat): (r: bytes)
    ensures |r| <= len
  {
    var a := if start <= |s| then start else |s|;
    var b := if a + len <= |s| then a + len else |s|;
    s[a..b]
  }

  /**
   * strncmp($a, $b, $n) === 0: PHP compares the first min(n, |a|, |b|) bytes
   * and then the clipped lengths, so equality means equal n-byte prefixes.
   */
  predicate StrncmpEqual(a: bytes, b: bytes, n: nat) {
    Substr(a, 0, n) == Substr(b, 0, n)
  }

  /** strrev. */
  function Reverse(s: bytes): (r: bytes)
    ensures |r| == |s|
    ensures forall i | 0 <= i < |s| :: r[i] == s[|s| - 1 - i]
  {
    seq(|s|, i requires 0 <= i < |s| => s[|s| - 1 - i])
  }

  /** strchr($h, $c) for a one-byte needle: the suffix from the first occurrence, or false. */
  function Strchr(h: bytes, c: byte): (r: Option<bytes>)
    ensures r.Some? ==> |r.value| > 0 && r.value[0] == c
  {
    if h == [] then None
    else if h[0] == c then Some(h)
    else Strchr(h[1..], c)
  }

  /** `!$x` for a value that is a string or false. */
  predicate Falsy(x: Option<bytes>) {
    x.None? || !Truthy(x.value)
  }
}
