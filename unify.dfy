/**
 * Compat::unify: case folding plus leetspeak folding, one byte at a time.
 */
module Unifier {
  import opened Bytes

  /** strtolower of one byte in the C locale. */
  function ToLower(b: byte): (r: byte)
    ensures !IsUpper(r)
  {
    if IsUpper(b) then b + 32 else b
  }

  /** The byte unify appends for one source byte: the switch over strtolower($c). */
  function UnifyByte(b: byte): (r: byte)
  {
    var c := ToLower(b);
    if c == 'a' as int || c == '@' as int then '4' as int
    else if c == 'e' as int then '3' as int
    else if c == 'i' as int || c == '|' as int then '!' as int
    else if c == 'l' as int then '1' as int
    else if c == 'o' as int then '0' as int
    else if c == 's' as int || c == '$' as int then '5' as int
    else if c == 't' as int || c == '+' as int then '7' as int
    else c
  }

  /** The string unify returns, as a function of its input. */
  function Unified(s: bytes): (r: bytes)
    ensures |r| == |s|
  {
    seq(|s|, i requires 0 <= i < |s| => UnifyByte(s[i]))
  }

  /** Compat::unify: appends the folded form of every byte to `$dst`. */
  method Unify(source: bytes) returns (dst: bytes)
    ensures |dst| == |source|
    ensures forall i | 0 <= i < |source| :: dst[i] == UnifyByte(source[i])
    ensures dst == Unified(source)
  {
    dst := [];
    var length := |source|;
    for i := 0 to length
      invariant |dst| == i
      invariant forall k | 0 <= k < i :: dst[k] == UnifyByte(source[k])
    {
      dst := dst + [UnifyByte(source[i])];
    }
  }

  /** Every byte unify can produce is left alone by a second pass. */
  lemma UnifyByteFixedPoint(b: byte)
    ensures UnifyByte(UnifyByte(b)) == UnifyByte(b)
  {
  }

  /** unify(unify(s)) == unify(s). */
  lemma UnifyIdempotent(s: bytes)
    ensures Unified(Unified(s)) == Unified(s)
  {
    forall i | 0 <= i < |s| ensures Unified(Unified(s))[i] == Unified(s)[i] {
      UnifyByteFixedPoint(s[i]);
    }
  }

  /** unify commutes with strrev, since it maps each byte independently. */
  lemma UnifyReverse(s: bytes)
    ensures Unified(Reverse(s)) == Reverse(Unified(s))
  {
  }
}
