/**
 * Compat::is_based: for every position i of the needle and every length j of
 * at least `match`, look for needle[i..i+j] in the haystack; on a hit either
 * remove the common part from the original password and ask is_simple
 * (mode 0), or discount the common part in is_simple's length test (other
 * modes).
 */
module Based {
  import opened Bytes
  import opened Params
  import opened Simple

  /** The arguments of one is_based call. */
  datatype Query = Query(policy: Policy, haystack: bytes, needle: bytes, original: bytes, mode: int)

  /** `$mode & 0xff` (Dafny's Euclidean remainder agrees with two's complement). */
  function LowByte(mode: int): int { mode % 0x100 }

  /** `$mode & 0x100` is non-zero: needle and original are reversed. */
  predicate Reversed(mode: int) { (mode / 0x100) % 2 == 1 }

  /**
   * The test of lines 161-168 at haystack offset k: `$p[0] === $q0` and strncmp
   * over the next j - 1 bytes, as PHP evaluates it.
   */
  predicate MatchTest(haystack: bytes, needle: bytes, i: nat, j: nat, k: nat)
    requires i < |needle| && k < |haystack| && j >= 1
  {
    var p := Suffix(haystack, k);
    ByteAt(p, 0) == ByteAt(needle, i) && StrncmpEqual(Suffix(p, 1), Suffix(needle, i + 1), j - 1)
  }

  /** needle[i..i+j] occurs in the haystack at offset k. */
  predicate HitAt(q: Query, i: nat, j: nat, k: nat) {
    i + j <= |q.needle| && k + j <= |q.haystack| && q.haystack[k..k + j] == q.needle[i..i + j]
  }

  /** needle[i..i+j] occurs somewhere in the haystack. */
  predicate Hit(q: Query, i: nat, j: nat) {
    exists k | 0 <= k < |q.haystack| :: HitAt(q, i, j, k)
  }

  /** needle[i..i+j] occurs at one of the first k haystack offsets. */
  predicate HitBefore(q: Query, i: nat, j: nat, k: nat) {
    k > 0 && (HitBefore(q, i, j, k - 1) || HitAt(q, i, j, k - 1))
  }

  lemma {:induction false} HitBeforeIsExists(q: Query, i: nat, j: nat, k: nat)
    ensures HitBefore(q, i, j, k) <==> exists k' | 0 <= k' < k :: HitAt(q, i, j, k')
  {
    if k > 0 {
      HitBeforeIsExists(q, i, j, k - 1);
      if HitBefore(q, i, j, k) && !HitBefore(q, i, j, k - 1) {
        assert HitAt(q, i, j, k - 1);
      }
      if exists k' | 0 <= k' < k :: HitAt(q, i, j, k') {
        var k' :| 0 <= k' < k && HitAt(q, i, j, k');
        if k' < k - 1 {
          assert HitBefore(q, i, j, k - 1);
        }
      }
    }
  }

  /** h contains n as a contiguous substring. */
  predicate Contains(h: bytes, n: bytes) {
    exists k | 0 <= k <= |h| - |n| :: Occurs(h, n, k)
  }

  predicate Occurs(h: bytes, n: bytes, k: int) {
    0 <= k <= |h| - |n| && h[k..k + |n|] == n
  }

  /** After one (i, j) pass: return a value from is_based, or go on with `$bias` set. */
  datatype Step = Return(result: bool) | Continue(bias: int)

  /** Lines 171-191: the original password with the j matched bytes cut out. */
  function Scratch(original: bytes, length: nat, mode: int, i: nat, j: nat): bytes
    requires i + j <= length
  {
    var pos := if Reversed(mode) then length - (i + j) else i;
    Substr(original, 0, pos) + Substr(original, pos + j, length + 1 - (pos + j))
  }

  /** The removal branch, taken when the low byte of the mode is 0. */
  function RemovalPass(p: Policy, original: bytes, length: nat, mode: int, i: nat, j: nat): Outcome<Step>
    requires i + j <= length
  {
    var bias := p.matchLength - 1;
    var simple :- IsSimpleSpec(p, Scratch(original, length, mode, i, j), bias, bias);
    if simple then Ok(Return(true)) else Ok(Continue(bias))
  }

  /** The bytes of the original checked for letters in word mode (lines 197-205). */
  predicate SpanAlpha(original: bytes, length: nat, mode: int, i: nat, j: nat)
    requires i + j <= length
  {
    var start := if Reversed(mode) then length - (i + j) else i;
    var end := if Reversed(mode) then length - i else i + j;
    AllAlpha(original, start, end)
  }

  /** Every `$original[$pos]` for start <= pos < end is a letter; an offset past the end reads as "". */
  predicate AllAlpha(original: bytes, start: int, end: int) {
    forall pos | start <= pos < end :: pos >= 0 && CtypeAlpha(ByteAt(original, pos))
  }

  /** The discount branch of lines 192-229. */
  function DiscountPass(p: Policy, original: bytes, length: nat, mode: int, i: nat, j: nat): Outcome<Step>
    requires i + j <= length
  {
    var m := p.matchLength;
    var wordMode := LowByte(mode) == 1;
    var letters := SpanAlpha(original, length, mode, i, j);
    if wordMode && !letters && j == m then
      Ok(Continue(-1))
    else
      var bias := (if wordMode && !letters then 0 else -1) + m - j;
      if bias < 0 then
        var simple :- IsSimpleSpec(p, original, bias, if wordMode then 0 else bias);
        if simple then Ok(Return(false)) else Ok(Continue(bias))
      else
        Ok(Continue(bias))
  }

  /** One pass of the length loop: `$bias` is reset to 0 and only hits change it. */
  function Pass(q: Query, i: nat, j: nat): Outcome<Step>
    requires i + j <= |q.needle|
  {
    if !Hit(q, i, j) then Ok(Continue(0))
    else if LowByte(q.mode) == 0 then RemovalPass(q.policy, q.original, |q.needle|, q.mode, i, j)
    else DiscountPass(q.policy, q.original, |q.needle|, q.mode, i, j)
  }

  /** The length loop from j on for position i, entered with `$bias` == bias. */
  function ScanJ(q: Query, i: nat, j: nat, bias: int): Outcome<Step>
    decreases |q.needle| - j
  {
    if i + j > |q.needle| then Ok(Continue(bias))
    else
      var s :- Pass(q, i, j);
      match s
      case Return(b) => Ok(Return(b))
      case Continue(b) => ScanJ(q, i, j + 1, b)
  }

  /** The position loop from i on; a zero bias after a position ends it. */
  function ScanI(q: Query, i: nat): Outcome<bool>
    decreases |q.needle| - i
  {
    if i > |q.needle| - q.policy.matchLength || q.policy.matchLength < 1 then Ok(false)
    else
      var s :- ScanJ(q, i, q.policy.matchLength, 0);
      match s
      case Return(b) => Ok(b)
      case Continue(b) => if b == 0 then Ok(false) else ScanI(q, i + 1)
  }

  /** What is_based returns, or the error it raises. */
  function IsBasedSpec(q: Query): Outcome<bool> {
    if q.policy.matchLength == 0 then Ok(false)
    else if q.policy.matchLength < 0 then Ok(true)
    else ScanI(q, 0)
  }

  lemma MatchTestIsHit(q: Query, i: nat, j: nat, k: nat)
    requires i + j <= |q.needle| && k < |q.haystack| && j >= 1
    ensures MatchTest(q.haystack, q.needle, i, j, k) <==> HitAt(q, i, j, k)
  {
    var h, n := q.haystack, q.needle;
    var p := Suffix(h, k);
    if HitAt(q, i, j, k) {
      assert h[k] == h[k..k + j][0];
      assert Substr(Suffix(p, 1), 0, j - 1) == h[k + 1..k + j];
      assert Substr(Suffix(n, i + 1), 0, j - 1) == n[i + 1..i + j];
      assert h[k + 1..k + j] == h[k..k + j][1..];
    }
    if MatchTest(h, n, i, j, k) {
      assert Substr(Suffix(n, i + 1), 0, j - 1) == n[i + 1..i + j];
      assert |Substr(Suffix(p, 1), 0, j - 1)| == j - 1;
      assert Substr(Suffix(p, 1), 0, j - 1) == h[k + 1..k + j];
      assert h[k..k + j] == [h[k]] + h[k + 1..k + j];
      assert n[i..i + j] == [n[i]] + n[i + 1..i + j];
    }
  }

  /** Lines 171-191: cut the matched bytes out of the original and ask is_simple with credit for match - 1 of them. */
  method RemoveMatch(p: Policy, needle: bytes, original: bytes, mode: int, i: nat, j: nat) returns (s: Outcome<Step>)
    requires i + j <= |needle|
    ensures s == RemovalPass(p, original, |needle|, mode, i, j)
  {
    var length := |needle|;
    var pos := length - (i + j);
    if !Reversed(mode) {
      pos := i;
    }
    var scratch := Substr(original, 0, pos) + Substr(original, pos + j, length + 1 - (pos + j));
    var bias := p.matchLength - 1;
    var simple := IsSimple(p, scratch, bias, bias);
    assert scratch == Scratch(original, length, mode, i, j);
    if simple.NegativeShift? {
      return NegativeShift;
    }
    if simple.value {
      return Ok(Return(true));
    }
    return Ok(Continue(bias));
  }

  /**
   * Lines 197-205: word mode scans the matched bytes of the original for a
   * non-letter; skip says that `continue 3` abandons this length.
   */
  method ScanLetters(original: bytes, length: nat, mode: int, i: nat, j: nat, m: int) returns (bias: int, skip: bool)
    requires i + j <= length
    ensures skip <==> !SpanAlpha(original, length, mode, i, j) && j == m
    ensures !skip ==> bias == if SpanAlpha(original, length, mode, i, j) then -1 else 0
  {
    bias := -1;
    var pos := i;
    var end := i + j;
    if Reversed(mode) {
      pos := length - end;
      end := length - i;
    }
    ghost var start := pos;
    while pos < end
      invariant start <= pos <= end
      invariant AllAlpha(original, start, pos) ==> bias == -1
      invariant !AllAlpha(original, start, pos) ==> bias == 0 && j != m
    {
      if !CtypeAlpha(ByteAt(original, pos)) {
        if j == m {
          assert !AllAlpha(original, start, end);
          return bias, true;
        }
        bias := 0;
      }
      pos := pos + 1;
    }
    skip := false;
  }

  /** Lines 192-229: discount the matched bytes in is_simple's length test; skip reports `continue 3`. */
  method DiscountMatch(p: Policy, needle: bytes, original: bytes, mode: int, i: nat, j: nat) returns (s: Outcome<Step>, skip: bool)
    requires i + j <= |needle|
    ensures s == DiscountPass(p, original, |needle|, mode, i, j)
    ensures skip ==> s == Ok(Continue(-1))
  {
    var m := p.matchLength;
    var bias := -1;
    var worstBias := 0;
    if LowByte(mode) == 1 {
      bias, skip := ScanLetters(original, |needle|, mode, i, j, m);
      if skip {
        return Ok(Continue(-1)), true;
      }
    }
    skip := false;
    bias := bias + m - j;
    if bias < worstBias {
      var simple := IsSimple(p, original, bias, if LowByte(mode) == 1 then 0 else bias);
      if simple.NegativeShift? {
        return NegativeShift, false;
      }
      if simple.value {
        return Ok(Return(false)), false;
      }
    }
    s := Ok(Continue(bias));
  }

  /**
   * One pass of the length loop (lines 151-230): scan every haystack offset for
   * needle[i..i+j], and on each hit run the branch the mode selects.
   */
  method TryLength(p: Policy, haystack: bytes, needle: bytes, original: bytes, mode: int, i: nat, j: nat) returns (s: Outcome<Step>)
    requires j >= 1 && i + j <= |needle|
    ensures s == Pass(Query(p, haystack, needle, original, mode), i, j)
  {
    ghost var q := Query(p, haystack, needle, original, mode);
    var bias := 0;
    var j1 := j - 1;
    var q0 := ByteAt(needle, i);
    var q1 := Suffix(needle, i + 1);
    var haystackLen := |haystack|;
    for k := 0 to haystackLen
      invariant HitBefore(q, i, j, k) ==> Pass(q, i, j) == Ok(Continue(bias))
      invariant !HitBefore(q, i, j, k) ==> bias == 0
    {
      var pk := Suffix(haystack, k);
      var found := ByteAt(pk, 0) == q0 && StrncmpEqual(Suffix(pk, 1), q1, j1);
      assert found == HitAt(q, i, j, k) by {
        MatchTestIsHit(q, i, j, k);
      }
      if found {
        assert Hit(q, i, j);
        if LowByte(mode) == 0 {
          s := RemoveMatch(p, needle, original, mode, i, j);
          if s.NegativeShift? || s.value.Return? {
            return;
          }
          bias := s.value.bias;
        } else {
          var skip;
          s, skip := DiscountMatch(p, needle, original, mode, i, j);
          if s.NegativeShift? || s.value.Return? || skip {
            return;
          }
          bias := s.value.bias;
        }
      }
    }
    HitBeforeIsExists(q, i, j, haystackLen);
    s := Ok(Continue(bias));
  }

  method IsBased(p: Policy, haystack: bytes, needle: bytes, original: bytes, mode: int) returns (r: Outcome<bool>)
    ensures r == IsBasedSpec(Query(p, haystack, needle, original, mode))
    ensures p.matchLength == 0 ==> r == Ok(false)
    ensures p.matchLength < 0 ==> r == Ok(true)
  {
    ghost var q := Query(p, haystack, needle, original, mode);
    if p.matchLength == 0 {
      return Ok(false);
    }
    if p.matchLength < 0 {
      return Ok(true);
    }
    var m := p.matchLength;
    var length := |needle|;
    var bias := 0;
    var i := 0;
    while i <= length - m
      invariant 0 <= i
      invariant ScanI(q, i) == ScanI(q, 0)
      decreases length - i
    {
      for j := m to length - i + 1
        invariant ScanJ(q, i, j, bias) == ScanJ(q, i, m, 0)
      {
        var s := TryLength(p, haystack, needle, original, mode, i, j);
        if s.NegativeShift? {
          return NegativeShift;
        }
        match s.value {
          case Return(b) => return Ok(b);
          case Continue(b) => bias := b;
        }
      }
      if bias == 0 {
        break;
      }
      i := i + 1;
    }
    return Ok(false);
  }

  // ---------------------------------------------------------------------
  // What is_based decides

  /**
   * What a true answer of the removal branch at (i, j) means: needle[i..i+j]
   * occurs in the haystack, and the original is simple once those bytes are
   * cut out of it.
   */
  predicate RemovalHit(q: Query, i: nat, j: nat)
    requires i + j <= |q.needle|
  {
    var b := q.policy.matchLength - 1;
    Hit(q, i, j) && IsSimpleSpec(q.policy, Scratch(q.original, |q.needle|, q.mode, i, j), b, b) == Ok(true)
  }

  /** A length pass that returns true ran the removal branch on a real hit at some length from j on. */
  lemma {:induction false} ScanJTrue(q: Query, i: nat, j: nat, bias: int)
    requires ScanJ(q, i, j, bias) == Ok(Return(true))
    ensures LowByte(q.mode) == 0
    ensures exists j' | j <= j' && i + j' <= |q.needle| :: RemovalHit(q, i, j')
    decreases |q.needle| - j
  {
    var s := Pass(q, i, j);
    if s == Ok(Return(true)) {
      assert RemovalHit(q, i, j);
    } else {
      ScanJTrue(q, i, j + 1, s.value.bias);
    }
  }

  lemma {:induction false} ScanITrue(q: Query, i: nat)
    requires ScanI(q, i) == Ok(true)
    ensures LowByte(q.mode) == 0
    ensures exists i', j' | i <= i' && q.policy.matchLength <= j' && i' + j' <= |q.needle| :: RemovalHit(q, i', j')
    decreases |q.needle| - i
  {
    var s := ScanJ(q, i, q.policy.matchLength, 0);
    if s == Ok(Return(true)) {
      ScanJTrue(q, i, q.policy.matchLength, 0);
    } else {
      ScanITrue(q, i + 1);
    }
  }

  /**
   * is_based answers true only for a negative `match`, or in removal mode when
   * needle and haystack share a substring of at least `match` bytes and the
   * original is simple once it is removed: the discount modes never answer
   * true. When the original is as long as the needle, is_simple is true only
   * of the empty string, so the common substring is then the whole needle.
   */
  lemma IsBasedTrue(q: Query)
    requires IsBasedSpec(q) == Ok(true)
    ensures q.policy.matchLength < 0 ||
      (LowByte(q.mode) == 0 &&
       exists i, j | 0 <= i && q.policy.matchLength <= j && i + j <= |q.needle| :: RemovalHit(q, i, j))
    ensures q.policy.matchLength >= 0 && |q.original| == |q.needle| ==>
      LowByte(q.mode) == 0 && |q.needle| >= q.policy.matchLength && Contains(q.haystack, q.needle)
  {
    var m := q.policy.matchLength;
    if m > 0 {
      ScanITrue(q, 0);
      var i, j :| 0 <= i && m <= j && i + j <= |q.needle| && RemovalHit(q, i, j);
      if |q.original| == |q.needle| {
        RemovalHitIsWhole(q, i, j);
      }
    }
  }

  /** With the original as long as the needle, only the cut of the whole needle leaves a simple (empty) remainder. */
  lemma RemovalHitIsWhole(q: Query, i: nat, j: nat)
    requires |q.original| == |q.needle| && j >= 1 && i + j <= |q.needle| && RemovalHit(q, i, j)
    ensures i == 0 && j == |q.needle| && Contains(q.haystack, q.needle)
  {
    var b := q.policy.matchLength - 1;
    SimpleOnlyWhenEmpty(q.policy, Scratch(q.original, |q.needle|, q.mode, i, j), b, b);
    ScratchLength(q.original, q.mode, i, j);
    HitWholeNeedle(q);
  }

  /** On a shift-safe policy a discount pass raises nothing and never returns true. */
  lemma {:induction false} DiscountScanJ(q: Query, i: nat, j: nat, bias: int)
    requires ShiftSafe(q.policy) && LowByte(q.mode) != 0
    ensures ScanJ(q, i, j, bias).Ok? && ScanJ(q, i, j, bias) != Ok(Return(true))
    decreases |q.needle| - j
  {
    if i + j <= |q.needle| {
      forall b, pb ensures IsSimpleSpec(q.policy, q.original, b, pb).Ok? {
        NeverSimpleWhenSafe(q.policy, q.original, b, pb);
      }
      var s := Pass(q, i, j);
      if s.value.Continue? {
        DiscountScanJ(q, i, j + 1, s.value.bias);
      }
    }
  }

  lemma {:induction false} DiscountScanI(q: Query, i: nat)
    requires ShiftSafe(q.policy) && LowByte(q.mode) != 0
    ensures ScanI(q, i) == Ok(false)
    decreases |q.needle| - i
  {
    var m := q.policy.matchLength;
    if m >= 1 && i <= |q.needle| - m {
      DiscountScanJ(q, i, m, 0);
      if ScanJ(q, i, m, 0).value.Continue? {
        DiscountScanI(q, i + 1);
      }
    }
  }

  /**
   * With the thresholds of a shift-safe policy (the default one included)
   * the word and sequence modes never reject anything.
   */
  lemma DiscountSafe(q: Query)
    requires ShiftSafe(q.policy) && q.policy.matchLength >= 0 && LowByte(q.mode) != 0
    ensures IsBasedSpec(q) == Ok(false)
  {
    if q.policy.matchLength > 0 {
      DiscountScanI(q, 0);
    }
  }

  /** Cutting j bytes out of an original as long as the needle leaves length - j bytes. */
  lemma ScratchLength(original: bytes, mode: int, i: nat, j: nat)
    requires i + j <= |original|
    ensures |Scratch(original, |original|, mode, i, j)| == |original| - j
  {
  }

  /**
   * In removal mode on a shift-safe policy only the pass that removes the
   * whole password can answer true, so the first position decides.
   */
  lemma {:induction false} RemovalScanJ(q: Query, j: nat, bias: int)
    requires ShiftSafe(q.policy) && LowByte(q.mode) == 0 && |q.original| == |q.needle|
    requires 1 <= j <= |q.needle|
    ensures ScanJ(q, 0, j, bias) == if Hit(q, 0, |q.needle|) then Ok(Return(true)) else Ok(Continue(0))
    decreases |q.needle| - j
  {
    var p, length := q.policy, |q.needle|;
    var b := p.matchLength - 1;
    ScratchLength(q.original, q.mode, 0, j);
    NeverSimpleWhenSafe(p, Scratch(q.original, length, q.mode, 0, j), b, b);
    if j < length {
      RemovalScanJ(q, j + 1, if Hit(q, 0, j) then b else 0);
    }
  }

  lemma HitWholeNeedle(q: Query)
    requires |q.needle| >= 1
    ensures Hit(q, 0, |q.needle|) <==> Contains(q.haystack, q.needle)
  {
    var h, n := q.haystack, q.needle;
    if Hit(q, 0, |n|) {
      var k :| 0 <= k < |h| && HitAt(q, 0, |n|, k);
      assert Occurs(h, n, k);
    }
    if Contains(h, n) {
      var k :| 0 <= k <= |h| - |n| && Occurs(h, n, k);
      assert HitAt(q, 0, |n|, k);
    }
  }

  /**
   * The similarity test of passwdqc_check: on a shift-safe policy, with the
   * original as long as the (unified) needle, is_based in removal mode
   * answers exactly whether the whole needle occurs in the haystack and is
   * at least `match` bytes long.
   */
  lemma RemovalSafe(q: Query)
    requires ShiftSafe(q.policy) && q.policy.matchLength >= 1 && LowByte(q.mode) == 0
    requires |q.original| == |q.needle|
    ensures IsBasedSpec(q) == Ok(|q.needle| >= q.policy.matchLength && Contains(q.haystack, q.needle))
  {
    if |q.needle| >= q.policy.matchLength {
      RemovalScanJ(q, q.policy.matchLength, 0);
      HitWholeNeedle(q);
    }
  }

  /**
   * Removal mode when the whole needle occurs in the haystack: every length
   * from j on is a hit, and the pass that cuts out the whole original leaves
   * the empty string, which is simple; so the length loop returns true
   * unless an earlier pass raises.
   */
  lemma {:induction false} RemovalHitsAtFullLength(q: Query, j: nat, bias: int)
    requires LowByte(q.mode) == 0 && |q.original| == |q.needle|
    requires 1 <= j <= |q.needle| && Contains(q.haystack, q.needle)
    ensures ScanJ(q, 0, j, bias) == NegativeShift || ScanJ(q, 0, j, bias) == Ok(Return(true))
    decreases |q.needle| - j
  {
    var h, n := q.haystack, q.needle;
    var k :| 0 <= k <= |h| - |n| && Occurs(h, n, k);
    assert h[k..k + j] == n[0..j];
    assert HitAt(q, 0, j, k);
    assert Hit(q, 0, j);
    var b := q.policy.matchLength - 1;
    var scratch := Scratch(q.original, |n|, q.mode, 0, j);
    assert Pass(q, 0, j) == RemovalPass(q.policy, q.original, |n|, q.mode, 0, j);
    if j == |n| {
      ScratchLength(q.original, q.mode, 0, j);
      SimpleOnlyWhenEmpty(q.policy, scratch, b, b);
      assert RemovalPass(q.policy, q.original, |n|, q.mode, 0, j) == Ok(Return(true));
    } else {
      RemovalHitsAtFullLength(q, j + 1, b);
    }
  }

  /**
   * Under every policy, in removal mode with the original as long as the
   * needle: when the whole needle, at least `match` bytes long, occurs in the
   * haystack, is_based answers true or raises. With IsBasedTrue, unless it
   * raises, removal mode answers exactly whether the whole needle occurs.
   */
  lemma RemovalContained(q: Query)
    requires LowByte(q.mode) == 0 && q.policy.matchLength >= 1 && |q.original| == |q.needle|
    ensures |q.needle| >= q.policy.matchLength && Contains(q.haystack, q.needle) ==>
      IsBasedSpec(q) == NegativeShift || IsBasedSpec(q) == Ok(true)
    ensures IsBasedSpec(q).Ok? ==>
      IsBasedSpec(q) == Ok(|q.needle| >= q.policy.matchLength && Contains(q.haystack, q.needle))
  {
    var m := q.policy.matchLength;
    if |q.needle| >= m && Contains(q.haystack, q.needle) {
      RemovalHitsAtFullLength(q, m, 0);
      var s := ScanJ(q, 0, m, 0);
      assert ScanI(q, 0) == (if s.NegativeShift? then NegativeShift else Ok(true));
    } else if IsBasedSpec(q) == Ok(true) {
      IsBasedTrue(q);
    } else if IsBasedSpec(q).Ok? {
      assert IsBasedSpec(q).value == false;
    }
  }
}
