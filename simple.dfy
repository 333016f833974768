/**
 * Compat::is_simple: one pass over the password counts character classes,
 * word starts and "new" characters, then a cascade of tier tests runs from
 * the number of classes down to one.
 *
 * As written, the function answers true when a tier's length and
 * different-character thresholds ARE met, and its different-character count
 * searches the suffix that starts at the byte itself, so it is 1 exactly when
 * the password ends in "0" and 0 otherwise.
 */
module Simple {
  import opened Bytes
  import opened Params
  import opened Expected

  /** The five counters of lines 279-293. */
  datatype ByteClass = Unknown | Digit | Lower | Upper | Other

  /** The counter that byte c increments. */
  function ClassOf(c: byte): ByteClass {
    if !IsAscii([c]) then Unknown
    else if IsDigit(c) then Digit
    else if IsLower(c) then Lower
    else if IsUpper(c) then Upper
    else Other
  }

  /** How many of the first n bytes of s fall in class k. */
  function Count(s: bytes, n: nat, k: ByteClass): nat
    requires n <= |s|
  {
    if n == 0 then 0 else Count(s, n - 1, k) + (if ClassOf(s[n - 1]) == k then 1 else 0)
  }

  /** `$p` when byte i is read: "" before the first byte, the previous byte after. */
  function Previous(s: bytes, i: nat): (p: bytes)
    requires i <= |s|
    ensures |p| <= 1
  {
    if i == 0 then [] else [s[i - 1]]
  }

  /** Lines 295-303: byte c, read after `$p`, starts a word. */
  predicate StartsWord(p: bytes, c: byte) {
    IsAscii(p) && (if IsAscii([c]) then CtypeAlpha([c]) && !CtypeAlpha(p) else CtypeSpace(p))
  }

  /** The word count after the first n bytes. */
  function Words(s: bytes, n: nat): nat
    requires n <= |s|
  {
    if n == 0 then 0 else Words(s, n - 1) + (if StartsWord(Previous(s, n - 1), s[n - 1]) then 1 else 0)
  }

  /** Line 306: byte i is counted when strchr over the suffix from i is falsy. */
  predicate CountsAsNew(s: bytes, i: nat)
    requires i < |s|
  {
    Falsy(Strchr(s[i..], s[i]))
  }

  /** The `$chars` count after the first n bytes. */
  function Chars(s: bytes, n: nat): nat
    requires n <= |s|
  {
    if n == 0 then 0 else Chars(s, n - 1) + (if CountsAsNew(s, n - 1) then 1 else 0)
  }

  /** Everything the counting loop leaves behind. */
  datatype Stats = Stats(digits: nat, lowers: nat, uppers: nat, others: nat, unknowns: nat, words: nat, chars: nat)

  function Scan(s: bytes): Stats {
    Stats(Count(s, |s|, Digit), Count(s, |s|, Lower), Count(s, |s|, Upper), Count(s, |s|, Other),
          Count(s, |s|, Unknown), Words(s, |s|), Chars(s, |s|))
  }

  /** Lines 310-325: the classes present, with non-ASCII bytes as an extra class only in sparse passwords. */
  function Classes(st: Stats): int {
    var standard := (if st.digits != 0 then 1 else 0) + (if st.lowers != 0 then 1 else 0) +
                    (if st.uppers != 0 then 1 else 0) + (if st.others != 0 then 1 else 0);
    if st.unknowns != 0 && standard <= 1 && (standard == 0 || st.digits != 0 || st.words >= 2)
    then standard + 1
    else standard
  }

  /** `cond && $chars >= expected_different(charset, minimum - 1)`, left operand first. */
  function Threshold(cond: bool, chars: nat, charset: int, minimum: int): Outcome<bool>
    requires TierCharset(charset)
  {
    if !cond then Ok(false)
    else
      var e :- ExpectedDifferentSpec(charset, minimum - 1);
      Ok(chars >= e)
  }

  /** The switch of lines 326-375, entered with `$classes` == classes. */
  function Cascade(p: Policy, st: Stats, length: int, bias: int, passphraseBias: int, classes: int): Outcome<bool>
    decreases classes
  {
    if classes <= 0 then Ok(false)
    else if classes == 4 then
      var t :- Threshold(length + bias >= p.min[4], st.chars, 95, p.min[4]);
      if t then Ok(true) else Cascade(p, st, length, bias, passphraseBias, 3)
    else if classes == 3 then
      var t :- Threshold(length + bias >= p.min[4], st.chars, 62, p.min[4]);
      if t then Ok(true) else Cascade(p, st, length, bias, passphraseBias, 2)
    else if classes == 2 then
      var t :- Threshold(length + bias >= p.min[1], st.chars, 36, p.min[1]);
      if t then Ok(true)
      else if p.passphrase == 0 || st.words < p.passphrase then Cascade(p, st, length, bias, passphraseBias, 1)
      else
        var t2 :- Threshold(length + passphraseBias >= p.min[2], st.chars, 27, p.min[2]);
        if t2 then Ok(true) else Cascade(p, st, length, bias, passphraseBias, 1)
    else if classes == 1 then
      Threshold(length + bias >= p.min[0], st.chars, 10, p.min[0])
    else
      Cascade(p, st, length, bias, passphraseBias, classes - 1)
  }

  /** What is_simple returns, or the error it raises. */
  function IsSimpleSpec(p: Policy, s: bytes, bias: int, passphraseBias: int): Outcome<bool> {
    if |s| < 1 then Ok(true)
    else
      var st := Scan(s);
      Cascade(p, st, |s|, bias, passphraseBias, Classes(st))
  }

  method IsSimple(p: Policy, newPassword: bytes, bias: int, passphraseBias: int) returns (r: Outcome<bool>)
    ensures r == IsSimpleSpec(p, newPassword, bias, passphraseBias)
    ensures newPassword == [] ==> r == Ok(true)
  {
    var length := |newPassword|;
    if length < 1 {
      return Ok(true);
    }
    var words, chars := 0, 0;
    var prev: bytes := [];
    var digits, lowers, uppers, others, unknowns := 0, 0, 0, 0, 0;
    for i := 0 to length
      invariant prev == Previous(newPassword, i)
      invariant digits == Count(newPassword, i, Digit) && lowers == Count(newPassword, i, Lower)
      invariant uppers == Count(newPassword, i, Upper) && others == Count(newPassword, i, Other)
      invariant unknowns == Count(newPassword, i, Unknown)
      invariant words == Words(newPassword, i) && chars == Chars(newPassword, i)
    {
      var c := newPassword[i];
      if !IsAscii([c]) {
        unknowns := unknowns + 1;
      } else if IsDigit(c) {
        digits := digits + 1;
      } else if IsLower(c) {
        lowers := lowers + 1;
      } else if IsUpper(c) {
        uppers := uppers + 1;
      } else {
        others := others + 1;
      }
      if IsAscii(prev) {
        if IsAscii([c]) {
          if CtypeAlpha([c]) && !CtypeAlpha(prev) {
            words := words + 1;
          }
        } else if CtypeSpace(prev) {
          words := words + 1;
        }
      }
      prev := [c];
      if Falsy(Strchr(newPassword[i..], c)) {
        chars := chars + 1;
      }
    }
    ghost var st := Scan(newPassword);
    var classes := 0;
    if digits != 0 { classes := classes + 1; }
    if lowers != 0 { classes := classes + 1; }
    if uppers != 0 { classes := classes + 1; }
    if others != 0 { classes := classes + 1; }
    if unknowns != 0 && classes <= 1 && (classes == 0 || digits != 0 || words >= 2) {
      classes := classes + 1;
    }
    assert classes == Classes(st);
    while classes > 0
      invariant Cascade(p, st, length, bias, passphraseBias, classes) == IsSimpleSpec(p, newPassword, bias, passphraseBias)
    {
      match classes {
        case 4 =>
          if length + bias >= p.min[4] {
            var e := ExpectedDifferent(95, p.min[4] - 1);
            if e.NegativeShift? { return NegativeShift; }
            if chars >= e.value { return Ok(true); }
          }
        case 3 =>
          if length + bias >= p.min[4] {
            var e := ExpectedDifferent(62, p.min[4] - 1);
            if e.NegativeShift? { return NegativeShift; }
            if chars >= e.value { return Ok(true); }
          }
        case 2 =>
          if length + bias >= p.min[1] {
            var e := ExpectedDifferent(36, p.min[1] - 1);
            if e.NegativeShift? { return NegativeShift; }
            if chars >= e.value { return Ok(true); }
          }
          if p.passphrase != 0 && words >= p.passphrase && length + passphraseBias >= p.min[2] {
            var e := ExpectedDifferent(27, p.min[2] - 1);
            if e.NegativeShift? { return NegativeShift; }
            if chars >= e.value { return Ok(true); }
          }
        case 1 =>
          if length + bias >= p.min[0] {
            var e := ExpectedDifferent(10, p.min[0] - 1);
            if e.NegativeShift? { return NegativeShift; }
            return Ok(chars >= e.value);
          }
          return Ok(false);
        case _ =>
      }
      classes := classes - 1;
    }
    return Ok(false);
  }

  // ---------------------------------------------------------------------
  // Properties of the classifier

  /** A policy whose tier lengths can be handed to expected_different without a negative shift. */
  predicate ShiftSafe(p: Policy) {
    p.min[0] >= 3 && p.min[1] >= 3 && p.min[2] >= 3 && p.min[4] >= 3
  }

  /** Every byte lands in exactly one counter, so the five counters add up to the length. */
  lemma {:induction false} CountsSumToLength(s: bytes, n: nat)
    requires n <= |s|
    ensures Count(s, n, Digit) + Count(s, n, Lower) + Count(s, n, Upper) + Count(s, n, Other) + Count(s, n, Unknown) == n
  {
    if n > 0 {
      CountsSumToLength(s, n - 1);
    }
  }

  /** A non-empty password has between one and four classes after line 325. */
  lemma ClassesInRange(s: bytes)
    requires |s| > 0
    ensures 1 <= Classes(Scan(s)) <= 4
  {
    CountsSumToLength(s, |s|);
  }

  /** Words never counts the first byte; afterwards, an ASCII letter after an ASCII non-letter, or a non-ASCII byte after ASCII white space. */
  lemma StartsWordAt(s: bytes, i: nat)
    requires i < |s|
    ensures StartsWord(Previous(s, i), s[i]) <==>
      i > 0 && s[i - 1] < 128 &&
      (if s[i] < 128 then IsAlpha(s[i]) && !IsAlpha(s[i - 1]) else IsSpace(s[i - 1]))
  {
  }

  lemma StrchrAtItself(s: bytes, i: nat)
    requires i < |s|
    ensures Strchr(s[i..], s[i]) == Some(s[i..])
  {
  }

  /** strchr always finds the byte at the start of its own suffix, so only a final "0" counts. */
  lemma {:induction false} CharsOfPrefix(s: bytes, n: nat)
    requires n <= |s|
    ensures Chars(s, n) == if n == |s| && n > 0 && s[n - 1] == '0' as int then 1 else 0
  {
    if n > 0 {
      CharsOfPrefix(s, n - 1);
      StrchrAtItself(s, n - 1);
      if n < |s| {
        assert |s[n - 1..]| >= 2;
      }
    }
  }

  lemma CharsIsFinalZero(s: bytes)
    ensures Scan(s).chars == if |s| > 0 && s[|s| - 1] == '0' as int then 1 else 0
    ensures Scan(s).chars <= 1
  {
    CharsOfPrefix(s, |s|);
  }

  /** On a shift-safe policy every tier test is a plain length-and-count comparison. */
  lemma {:induction false} CascadeExplicit(p: Policy, st: Stats, n: int, bias: int, passphraseBias: int, c: int)
    requires ShiftSafe(p) && 1 <= c <= 4
    ensures Cascade(p, st, n, bias, passphraseBias, c) == Ok(
      (c >= 4 && n + bias >= p.min[4] && st.chars >= 95) ||
      (c >= 3 && n + bias >= p.min[4] && st.chars >= 62) ||
      (c >= 2 && n + bias >= p.min[1] && st.chars >= 36) ||
      (c >= 2 && p.passphrase != 0 && st.words >= p.passphrase && n + passphraseBias >= p.min[2] && st.chars >= 27) ||
      (n + bias >= p.min[0] && st.chars >= 10))
    decreases c
  {
    ExpectedDifferentOfTier(95, p.min[4] - 1);
    ExpectedDifferentOfTier(62, p.min[4] - 1);
    ExpectedDifferentOfTier(36, p.min[1] - 1);
    ExpectedDifferentOfTier(27, p.min[2] - 1);
    ExpectedDifferentOfTier(10, p.min[0] - 1);
    if c > 1 {
      CascadeExplicit(p, st, n, bias, passphraseBias, c - 1);
    }
  }

  /**
   * For a non-empty password is_simple is the OR of the tier tests from its
   * class count down to one (so the final `return false` is never reached),
   * and the biases appear only in the length comparisons.
   */
  lemma IsSimpleExplicit(p: Policy, s: bytes, bias: int, passphraseBias: int)
    requires |s| > 0 && ShiftSafe(p)
    ensures var st := Scan(s); var c := Classes(st); var n := |s|;
      IsSimpleSpec(p, s, bias, passphraseBias) == Ok(
        (c >= 4 && n + bias >= p.min[4] && st.chars >= 95) ||
        (c >= 3 && n + bias >= p.min[4] && st.chars >= 62) ||
        (c >= 2 && n + bias >= p.min[1] && st.chars >= 36) ||
        (c >= 2 && p.passphrase != 0 && st.words >= p.passphrase && n + passphraseBias >= p.min[2] && st.chars >= 27) ||
        (n + bias >= p.min[0] && st.chars >= 10))
  {
    ClassesInRange(s);
    CascadeExplicit(p, Scan(s), |s|, bias, passphraseBias, Classes(Scan(s)));
  }

  /**
   * Because the different-character count is at most 1, no tier's count
   * threshold is ever met: on a shift-safe policy (the default one included)
   * is_simple is false for every non-empty password, whatever the biases.
   */
  lemma NeverSimpleWhenSafe(p: Policy, s: bytes, bias: int, passphraseBias: int)
    requires ShiftSafe(p)
    ensures IsSimpleSpec(p, s, bias, passphraseBias) == Ok(s == [])
  {
    if |s| > 0 {
      IsSimpleExplicit(p, s, bias, passphraseBias);
      CharsIsFinalZero(s);
    }
  }

  /** For the tier charsets a threshold is either unmet or raises once at most one different character was counted. */
  lemma ThresholdNeverTrue(cond: bool, chars: nat, charset: int, minimum: int)
    requires TierCharset(charset) && chars <= 1
    ensures Threshold(cond, chars, charset, minimum) != Ok(true)
  {
    ExpectedDifferentOfTier(charset, minimum - 1);
  }

  lemma {:induction false} CascadeNeverTrue(p: Policy, st: Stats, n: int, bias: int, passphraseBias: int, c: int)
    requires st.chars <= 1
    ensures Cascade(p, st, n, bias, passphraseBias, c) != Ok(true)
    decreases c
  {
    if c >= 1 {
      ThresholdNeverTrue(n + bias >= p.min[4], st.chars, 95, p.min[4]);
      ThresholdNeverTrue(n + bias >= p.min[4], st.chars, 62, p.min[4]);
      ThresholdNeverTrue(n + bias >= p.min[1], st.chars, 36, p.min[1]);
      ThresholdNeverTrue(n + passphraseBias >= p.min[2], st.chars, 27, p.min[2]);
      ThresholdNeverTrue(n + bias >= p.min[0], st.chars, 10, p.min[0]);
      if c > 1 {
        CascadeNeverTrue(p, st, n, bias, passphraseBias, c - 1);
      }
    }
  }

  /**
   * Whatever the policy and the biases, is_simple answers true only for the
   * empty password: on a non-empty one it answers false or raises.
   */
  lemma SimpleOnlyWhenEmpty(p: Policy, s: bytes, bias: int, passphraseBias: int)
    ensures IsSimpleSpec(p, s, bias, passphraseBias) == Ok(true) <==> s == []
  {
    if |s| > 0 {
      CharsIsFinalZero(s);
      CascadeNeverTrue(p, Scan(s), |s|, bias, passphraseBias, Classes(Scan(s)));
    }
  }

  lemma DefaultIsShiftSafe()
    ensures ShiftSafe(DefaultPolicy)
  {
  }

  /** The passphrase tier is tried, its length test passes, and its minimum is 2 or less. */
  predicate PassphraseTierRaises(p: Policy, st: Stats, n: int, passphraseBias: int) {
    p.passphrase != 0 && st.words >= p.passphrase && p.min[2] <= 2 && n + passphraseBias >= p.min[2]
  }

  /**
   * A tier whose minimum length is 2 or less makes expected_different shift by
   * a negative amount as soon as the cascade reaches that tier and its length
   * test passes: the 4- and 3-class tiers against min[4], the 2-class tier
   * against min[1], the passphrase tier against min[2] and the 1-class tier
   * against min[0].
   */
  lemma SmallMinimumRaises(p: Policy, s: bytes, bias: int, passphraseBias: int)
    requires |s| > 0
    ensures var st := Scan(s); var c := Classes(st); var n := |s|; var r := IsSimpleSpec(p, s, bias, passphraseBias);
      (c >= 3 && p.min[4] <= 2 && n + bias >= p.min[4] ==> r == NegativeShift) &&
      (c >= 2 && (c == 2 || n + bias < p.min[4]) && p.min[1] <= 2 && n + bias >= p.min[1] ==> r == NegativeShift) &&
      (c >= 2 && (c == 2 || n + bias < p.min[4]) && (n + bias < p.min[1] || p.min[1] >= 3) && PassphraseTierRaises(p, st, n, passphraseBias)
       ==> r == NegativeShift) &&
      (c == 1 && p.min[0] <= 2 && n + bias >= p.min[0] ==> r == NegativeShift)
  {
    ClassesInRange(s);
    CharsIsFinalZero(s);
    ExpectedDifferentOfTier(95, p.min[4] - 1);
    ExpectedDifferentOfTier(62, p.min[4] - 1);
    ExpectedDifferentOfTier(36, p.min[1] - 1);
    ExpectedDifferentOfTier(27, p.min[2] - 1);
    ExpectedDifferentOfTier(10, p.min[0] - 1);
  }
}
