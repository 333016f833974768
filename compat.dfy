/**
 * Compat::passwdqc_check and Compat::is_word_based: the gates a new password
 * passes in order (length, sameness, simplicity, similarity to the old
 * password, personal information, dictionary words and sequences), and the
 * reason the last rejection recorded.
 */
module Compat {
  import opened Bytes
  import opened Params
  import opened Unifier
  import opened Simple
  import opened Based

  /** The REASON_* constants. */
  datatype Reason =
    | CheckFailed
    | SameAsOld
    | BasedOnOld
    | TooShort
    | TooLong
    | SimpleShort
    | TooSimple
    | PersonalInfo
    | DictionaryWord
    | CommonSequence

  /** The message text of each reason (lines 31-40). */
  function Message(r: Reason): (m: string)
    ensures |m| > 0
  {
    match r
    case CheckFailed => "check failed"
    case SameAsOld => "is the same as the old one"
    case BasedOnOld => "is based on the old one"
    case TooShort => "too short"
    case TooLong => "too long"
    case SimpleShort => "not enough different characters or classes for this length"
    case TooSimple => "not enough different characters or classes"
    case PersonalInfo => "based on personal login information"
    case DictionaryWord => "based on a dictionary word and not a passphrase"
    case CommonSequence => "based on a common sequence of characters and not a passphrase"
  }

  /** Distinct reasons have distinct messages, so getLastReason tells which gate refused. */
  lemma MessagesDistinct(r1: Reason, r2: Reason)
    ensures Message(r1) == Message(r2) ==> r1 == r2
  {
  }

  /** A UserInformation object: login name, GECOS field and home directory. */
  datatype UserInformation = UserInformation(name: bytes, gecos: bytes, dir: bytes)

  /** The `$seq` table of common keyboard and alphabet sequences. */
  const SeqTable: seq<bytes> := [
    Ascii("0123456789"),
    Ascii("`1234567890-="),
    Ascii("~!@#$%^&*()_+"),
    Ascii("abcdefghijklmnopqrstuvwxyz"),
    Ascii("a1b2c3d4e5f6g7h8i9j0"),
    Ascii("1a2b3c4d5e6f7g8h9i0j"),
    Ascii("abc123"),
    Ascii("qwertyuiop[]\\asdfghjkl;'zxcvbnm,./"),
    Ascii("qwertyuiop{}|asdfghjkl:\"zxcvbnm<>?"),
    Ascii("qwertyuiopasdfghjklzxcvbnm"),
    Ascii("1qaz2wsx3edc4rfv5tgb6yhn7ujm8ik,9ol.0p;/-['=]\\"),
    Ascii("!qaz@wsx#edc$rfv%tgb^yhn&ujm*ik<(ol>)p:?_{\"+}|"),
    Ascii("qazwsxedcrfvtgbyhnujmikolp"),
    Ascii("1q2w3e4r5t6y7u8i9o0p-[=]"),
    Ascii("q1w2e3r4t5y6u7i8o9p0[-]=\\"),
    Ascii("1qaz1qaz"),
    Ascii("1qaz!qaz"),
    Ascii("1qazzaq1"),
    Ascii("zaq!1qaz"),
    Ascii("zaq!2wsx")
  ]

  /** The sequences as is_word_based compares them: each entry unified. */
  function UnifiedSeq(): (r: seq<bytes>)
    ensures |r| == |SeqTable|
    ensures forall i | 0 <= i < |SeqTable| :: r[i] == Unified(SeqTable[i])
  {
    seq(|SeqTable|, i requires 0 <= i < |SeqTable| => Unified(SeqTable[i]))
  }

  /** `(string) $i` for a four-digit year. */
  function DecimalYear(y: int): (r: bytes)
    requires 1000 <= y <= 9999
    ensures |r| == 4
  {
    [48 + y / 1000, 48 + (y / 100) % 10, 48 + (y / 10) % 10, 48 + y % 10]
  }

  /** The birth years 1900 to 2039, in the order they are tried. */
  function Years(): (r: seq<bytes>)
    ensures |r| == 140
  {
    seq(140, i requires 0 <= i < 140 => DecimalYear(1900 + i))
  }

  /** Whether is_based holds for some haystack, trying them in order and stopping at the first. */
  function FirstBased(p: Policy, haystacks: seq<bytes>, needle: bytes, original: bytes, mode: int): Outcome<bool> {
    if haystacks == [] then Ok(false)
    else
      var b :- IsBasedSpec(Query(p, haystacks[0], needle, original, mode));
      if b then Ok(true) else FirstBased(p, haystacks[1..], needle, original, mode)
  }

  /**
   * What is_word_based does: Some(reason) when it rejects (and records the
   * reason), None when it returns false.
   */
  function WordBasedSpec(p: Policy, wordList: seq<bytes>, needle: bytes, original: bytes, reversed: bool): Outcome<Option<Reason>> {
    if p.matchLength == 0 then Ok(None)
    else
      var words :- FirstBased(p, wordList, needle, original, if reversed then 0x101 else 1);
      if words then Ok(Some(DictionaryWord))
      else
        var mode := if reversed then 0x102 else 2;
        var sequences :- FirstBased(p, UnifiedSeq(), needle, original, mode);
        if sequences then Ok(Some(CommonSequence))
        else if p.matchLength > 4 then Ok(None)
        else
          var years :- FirstBased(p, Years(), needle, original, mode);
          if years then Ok(Some(CommonSequence)) else Ok(None)
  }

  /** `is_based(h, u, original, 0) || is_based(h, ur, original, 0x100)`. */
  function EitherWay(p: Policy, haystack: bytes, u: bytes, ur: bytes, original: bytes): Outcome<bool> {
    var forward :- IsBasedSpec(Query(p, haystack, u, original, 0));
    if forward then Ok(true) else IsBasedSpec(Query(p, haystack, ur, original, 0x100))
  }

  /** The six is_based calls of lines 498-511, in order. */
  function PersonalSpec(p: Policy, info: UserInformation, u: bytes, ur: bytes, original: bytes): Outcome<bool> {
    var name :- EitherWay(p, Unified(info.name), u, ur, original);
    if name then Ok(true)
    else
      var gecos :- EitherWay(p, Unified(info.gecos), u, ur, original);
      if gecos then Ok(true) else EitherWay(p, Unified(info.dir), u, ur, original)
  }

  datatype Verdict = Accepted | Rejected(reason: Reason)

  /** The gates after the length checks, on the (possibly truncated) password. */
  function ContentSpec(p: Policy, wordList: seq<bytes>, pwd: bytes, oldPassword: bytes, pw: Option<UserInformation>): Outcome<Verdict> {
    if Truthy(oldPassword) && pwd == oldPassword then Ok(Rejected(SameAsOld))
    else
      var simple :- IsSimpleSpec(p, pwd, 0, 0);
      if simple then
        Ok(Rejected(if |pwd| < p.min[1] && p.min[1] <= p.max then SimpleShort else TooSimple))
      else
        var u := Unified(pwd);
        var ur := Reverse(u);
        var similar :- if Truthy(oldPassword) && SimilarDeny(p) then EitherWay(p, Unified(oldPassword), u, ur, pwd) else Ok(false);
        if similar then Ok(Rejected(BasedOnOld))
        else
          var personal :- if pw.Some? then PersonalSpec(p, pw.value, u, ur, pwd) else Ok(false);
          if personal then Ok(Rejected(PersonalInfo))
          else
            var forward :- WordBasedSpec(p, wordList, u, pwd, false);
            if forward.Some? then Ok(Rejected(forward.value))
            else
              var backward :- WordBasedSpec(p, wordList, ur, pwd, true);
              if backward.Some? then Ok(Rejected(backward.value)) else Ok(Accepted)
  }

  /** What passwdqc_check decides for a policy, a word list and its arguments. */
  function CheckSpec(p: Policy, wordList: seq<bytes>, newPassword: bytes, oldPassword: bytes, pw: Option<UserInformation>): Outcome<Verdict> {
    var length := |newPassword|;
    if length < p.min[4] then Ok(Rejected(TooShort))
    else if length > 10000 then Ok(Rejected(TooLong))
    else if length > p.max && p.max != 8 then Ok(Rejected(TooLong))
    else if length > p.max && Truthy(oldPassword) && !StrncmpEqual(Substr(newPassword, 0, 8), oldPassword, 8) then
      Ok(Rejected(SameAsOld))
    else
      ContentSpec(p, wordList, if length > p.max then Substr(newPassword, 0, 8) else newPassword, oldPassword, pw)
  }

  /** The static state of Compat: the injected word list and `$lastReason`. */
  class Compat {
    const wordList: seq<bytes>
    var lastReason: Option<Reason>

    constructor (wordList: seq<bytes>)
      ensures this.wordList == wordList && lastReason == None
    {
      this.wordList := wordList;
      lastReason := None;
    }

    /** getLastReason: the message of the last rejection; None where PHP's string return type fails. */
    function GetLastReason(): (r: Option<string>)
      reads this
      ensures r.Some? <==> lastReason.Some?
      ensures r.Some? ==> r.value == Message(lastReason.value)
    {
      if lastReason.Some? then Some(Message(lastReason.value)) else None
    }

    /** reject: records the reason and answers false. */
    method Reject(reason: Reason) returns (r: bool)
      modifies this
      ensures !r && lastReason == Some(reason)
    {
      lastReason := Some(reason);
      return false;
    }

    method IsWordBased(p: Policy, needle: bytes, original: bytes, reversed: bool) returns (r: Outcome<bool>)
      modifies this
      ensures var spec := WordBasedSpec(p, wordList, needle, original, reversed);
        r == (if spec.Ok? then Ok(spec.value.Some?) else NegativeShift) &&
        lastReason == (if spec.Ok? && spec.value.Some? then spec.value else old(lastReason))
    {
      if p.matchLength == 0 {
        return Ok(false);
      }
      var mode := if reversed then 0x0101 else 0x0001;
      for i := 0 to |wordList|
        invariant FirstBased(p, wordList[i..], needle, original, mode) == FirstBased(p, wordList, needle, original, mode)
        invariant lastReason == old(lastReason)
      {
        assert wordList[i..][1..] == wordList[i + 1..];
        var b := IsBased(p, wordList[i], needle, original, mode);
        if b.NegativeShift? {
          return NegativeShift;
        }
        if b.value {
          var rejected := Reject(DictionaryWord);
          return Ok(!rejected);
        }
      }
      mode := if reversed then 0x0102 else 0x0002;
      for i := 0 to |SeqTable|
        invariant FirstBased(p, UnifiedSeq()[i..], needle, original, mode) == FirstBased(p, UnifiedSeq(), needle, original, mode)
        invariant lastReason == old(lastReason)
      {
        assert UnifiedSeq()[i..][1..] == UnifiedSeq()[i + 1..];
        var unified := Unify(SeqTable[i]);
        var b := IsBased(p, unified, needle, original, mode);
        if b.NegativeShift? {
          return NegativeShift;
        }
        if b.value {
          var rejected := Reject(CommonSequence);
          return Ok(!rejected);
        }
      }
      if p.matchLength <= 4 {
        for y := 1900 to 2040
          invariant FirstBased(p, Years()[y - 1900..], needle, original, mode) == FirstBased(p, Years(), needle, original, mode)
          invariant lastReason == old(lastReason)
        {
          assert Years()[y - 1900..][1..] == Years()[y - 1900 + 1..];
          var b := IsBased(p, DecimalYear(y), needle, original, mode);
          if b.NegativeShift? {
            return NegativeShift;
          }
          if b.value {
            var rejected := Reject(CommonSequence);
            return Ok(!rejected);
          }
        }
      }
      return Ok(false);
    }

    /** The `||` of a forward and a reversed is_based call against one haystack. */
    method BasedEitherWay(p: Policy, haystack: bytes, u: bytes, ur: bytes, original: bytes) returns (r: Outcome<bool>)
      ensures r == EitherWay(p, haystack, u, ur, original)
    {
      r := IsBased(p, haystack, u, original, 0);
      if r == Ok(false) {
        r := IsBased(p, haystack, ur, original, 0x100);
      }
    }

    /** The gates after the length checks (lines 474-534). */
    method CheckContent(p: Policy, ps: Params, pwd: bytes, oldPassword: bytes, pw: Option<UserInformation>) returns (r: Outcome<bool>)
      requires ps.Snapshot() == p
      modifies this
      ensures var v := ContentSpec(p, wordList, pwd, oldPassword, pw);
        r == (if v.Ok? then Ok(v.value.Accepted?) else NegativeShift) &&
        lastReason == (if v.Ok? && v.value.Rejected? then Some(v.value.reason) else old(lastReason))
    {
      var rejected: bool;
      if Truthy(oldPassword) && pwd == oldPassword {
        rejected := Reject(SameAsOld);
        return Ok(rejected);
      }
      var simple := IsSimple(p, pwd, 0, 0);
      if simple.NegativeShift? {
        return NegativeShift;
      }
      if simple.value {
        if |pwd| < p.min[1] && p.min[1] <= p.max {
          rejected := Reject(SimpleShort);
          return Ok(rejected);
        }
        rejected := Reject(TooSimple);
        return Ok(rejected);
      }
      var uNew := Unify(pwd);
      var uReversed := Reverse(uNew);
      if Truthy(oldPassword) && ps.GetSimilarDeny() {
        var uOld := Unify(oldPassword);
        var similar := BasedEitherWay(p, uOld, uNew, uReversed, pwd);
        if similar.NegativeShift? {
          return NegativeShift;
        }
        if similar.value {
          rejected := Reject(BasedOnOld);
          return Ok(rejected);
        }
      }
      if pw.Some? {
        var uName := Unify(pw.value.name);
        var uGecos := Unify(pw.value.gecos);
        var uDir := Unify(pw.value.dir);
        var personal := BasedEitherWay(p, uName, uNew, uReversed, pwd);
        if personal == Ok(false) {
          personal := BasedEitherWay(p, uGecos, uNew, uReversed, pwd);
          if personal == Ok(false) {
            personal := BasedEitherWay(p, uDir, uNew, uReversed, pwd);
          }
        }
        if personal.NegativeShift? {
          return NegativeShift;
        }
        if personal.value {
          rejected := Reject(PersonalInfo);
          return Ok(rejected);
        }
      }
      var isWordBased := IsWordBased(p, uNew, pwd, false);
      if isWordBased.NegativeShift? {
        return NegativeShift;
      }
      if !isWordBased.value {
        isWordBased := IsWordBased(p, uReversed, pwd, true);
        if isWordBased.NegativeShift? {
          return NegativeShift;
        }
      }
      return Ok(!isWordBased.value);
    }

    /**
     * passwdqc_check: true when the new password is accepted; on a rejection
     * `lastReason` names the gate that refused it. A null Params means the
     * defaults.
     */
    method PasswdqcCheck(params: Params?, newPassword: bytes, oldPassword: bytes, pw: Option<UserInformation>) returns (r: Outcome<bool>)
      modifies this
      ensures var p := if params == null then DefaultPolicy else params.Snapshot();
        var v := CheckSpec(p, wordList, newPassword, oldPassword, pw);
        r == (if v.Ok? then Ok(v.value.Accepted?) else NegativeShift) &&
        lastReason == (if v.Ok? && v.value.Rejected? then Some(v.value.reason) else old(lastReason))
    {
      var ps: Params;
      if params == null {
        ps := new Params();
      } else {
        ps := params;
      }
      var p := ps.Snapshot();
      var pwd := newPassword;
      var length := |pwd|;
      var rejected: bool;
      if length < p.min[4] {
        rejected := Reject(TooShort);
        return Ok(rejected);
      }
      if length > 10000 {
        rejected := Reject(TooLong);
        return Ok(rejected);
      }
      if length > p.max {
        if p.max == 8 {
          pwd := Substr(pwd, 0, 8);
          length := 8;
          if Truthy(oldPassword) && !StrncmpEqual(pwd, oldPassword, 8) {
            rejected := Reject(SameAsOld);
            return Ok(rejected);
          }
        } else {
          rejected := Reject(TooLong);
          return Ok(rejected);
        }
      }
      assert pwd == if |newPassword| > p.max then Substr(newPassword, 0, 8) else newPassword;
      r := CheckContent(p, ps, pwd, oldPassword, pw);
    }
  }

  // ---------------------------------------------------------------------
  // What passwdqc_check decides

  /** The discount modes never make a haystack list reject, while `match` is not negative. */
  lemma {:induction false} FirstBasedDiscount(p: Policy, haystacks: seq<bytes>, needle: bytes, original: bytes, mode: int)
    requires p.matchLength >= 0 && LowByte(mode) != 0
    ensures FirstBased(p, haystacks, needle, original, mode) != Ok(true)
    ensures ShiftSafe(p) ==> FirstBased(p, haystacks, needle, original, mode) == Ok(false)
  {
    if haystacks != [] {
      var q := Query(p, haystacks[0], needle, original, mode);
      if IsBasedSpec(q) == Ok(true) {
        IsBasedTrue(q);
      }
      if ShiftSafe(p) {
        DiscountSafe(q);
      }
      FirstBasedDiscount(p, haystacks[1..], needle, original, mode);
    }
  }

  /**
   * is_word_based never rejects while `match` is not negative (it can only
   * raise), and never raises on a shift-safe policy.
   */
  lemma WordBasedNeverRejects(p: Policy, wordList: seq<bytes>, needle: bytes, original: bytes, reversed: bool)
    requires p.matchLength >= 0
    ensures !(WordBasedSpec(p, wordList, needle, original, reversed).Ok? &&
              WordBasedSpec(p, wordList, needle, original, reversed).value.Some?)
    ensures ShiftSafe(p) ==> WordBasedSpec(p, wordList, needle, original, reversed) == Ok(None)
  {
    var m1, m2 := if reversed then 0x101 else 1, if reversed then 0x102 else 2;
    FirstBasedDiscount(p, wordList, needle, original, m1);
    FirstBasedDiscount(p, UnifiedSeq(), needle, original, m2);
    FirstBasedDiscount(p, Years(), needle, original, m2);
  }

  /** With a negative `match` every is_based call is true: the first word, or else the first sequence, rejects. */
  lemma WordBasedNegativeMatch(p: Policy, wordList: seq<bytes>, needle: bytes, original: bytes, reversed: bool)
    requires p.matchLength < 0
    ensures WordBasedSpec(p, wordList, needle, original, reversed) ==
      Ok(Some(if wordList != [] then DictionaryWord else CommonSequence))
  {
  }

  /** pwd, unified, or its reverse, occurs in the haystack and is at least `match` bytes long. */
  predicate SharesWith(p: Policy, haystack: bytes, pwd: bytes) {
    var u := Unified(pwd);
    p.matchLength >= 1 && |pwd| >= p.matchLength && (Contains(haystack, u) || Contains(haystack, Reverse(u)))
  }

  /**
   * The decision of passwdqc_check as the shift-safe policies make it: the
   * simplicity gate and the dictionary, sequence and year gates never fire,
   * and similarity means that the whole unified password, forwards or
   * backwards, occurs in the unified old password or user field.
   */
  function SafeVerdict(p: Policy, newPassword: bytes, oldPassword: bytes, pw: Option<UserInformation>): Verdict {
    var length := |newPassword|;
    if length < p.min[4] then Rejected(TooShort)
    else if length > 10000 || (length > p.max && p.max != 8) then Rejected(TooLong)
    else if length > p.max && Truthy(oldPassword) && !StrncmpEqual(newPassword, oldPassword, 8) then Rejected(SameAsOld)
    else
      var pwd := if length > p.max then Substr(newPassword, 0, 8) else newPassword;
      if Truthy(oldPassword) && pwd == oldPassword then Rejected(SameAsOld)
      else if Truthy(oldPassword) && SimilarDeny(p) && SharesWith(p, Unified(oldPassword), pwd) then Rejected(BasedOnOld)
      else if pw.Some? && (SharesWith(p, Unified(pw.value.name), pwd) || SharesWith(p, Unified(pw.value.gecos), pwd) ||
                           SharesWith(p, Unified(pw.value.dir), pwd))
      then Rejected(PersonalInfo)
      else Accepted
  }

  lemma EitherWaySafe(p: Policy, haystack: bytes, pwd: bytes)
    requires ShiftSafe(p) && p.matchLength >= 0
    ensures EitherWay(p, haystack, Unified(pwd), Reverse(Unified(pwd)), pwd) == Ok(SharesWith(p, haystack, pwd))
  {
    if p.matchLength >= 1 {
      RemovalSafe(Query(p, haystack, Unified(pwd), pwd, 0));
      RemovalSafe(Query(p, haystack, Reverse(Unified(pwd)), pwd, 0x100));
    }
  }

  /** passwdqc_check on a shift-safe policy with a non-negative `match` decides SafeVerdict and never raises. */
  lemma CheckOnSafePolicy(p: Policy, wordList: seq<bytes>, newPassword: bytes, oldPassword: bytes, pw: Option<UserInformation>)
    requires ShiftSafe(p) && p.matchLength >= 0
    ensures CheckSpec(p, wordList, newPassword, oldPassword, pw) == Ok(SafeVerdict(p, newPassword, oldPassword, pw))
  {
    var length := |newPassword|;
    if length >= p.min[4] && length <= 10000 && (length <= p.max || p.max == 8) {
      var pwd := if length > p.max then Substr(newPassword, 0, 8) else newPassword;
      if length > p.max {
        assert StrncmpEqual(pwd, oldPassword, 8) == StrncmpEqual(newPassword, oldPassword, 8);
      }
      NeverSimpleWhenSafe(p, pwd, 0, 0);
      EitherWaySafe(p, Unified(oldPassword), pwd);
      if pw.Some? {
        EitherWaySafe(p, Unified(pw.value.name), pwd);
        EitherWaySafe(p, Unified(pw.value.gecos), pwd);
        EitherWaySafe(p, Unified(pw.value.dir), pwd);
      }
      WordBasedNeverRejects(p, wordList, Unified(pwd), pwd, false);
      WordBasedNeverRejects(p, wordList, Reverse(Unified(pwd)), pwd, true);
    }
  }

  /**
   * Under the defaults, with no old password and no user information, a
   * password is accepted exactly when it is 7 to 40 bytes long, whatever the
   * word list.
   */
  lemma DefaultAcceptance(wordList: seq<bytes>, newPassword: bytes, oldPassword: bytes)
    requires !Truthy(oldPassword)
    ensures CheckSpec(DefaultPolicy, wordList, newPassword, oldPassword, None) ==
      Ok(if |newPassword| < 7 then Rejected(TooShort)
         else if |newPassword| > 40 then Rejected(TooLong)
         else Accepted)
  {
    DefaultIsShiftSafe();
    CheckOnSafePolicy(DefaultPolicy, wordList, newPassword, oldPassword, None);
  }

  /** The two assertions of the repository's test of the default checker. */
  lemma DefaultExamples(wordList: seq<bytes>)
    ensures CheckSpec(DefaultPolicy, wordList, Ascii("o/IiJ/OI/110dA6KMN8m10pk7ff0UDR0rcJIAYhY"), [], None) == Ok(Accepted)
    ensures CheckSpec(DefaultPolicy, wordList, Ascii("123456"), [], None) == Ok(Rejected(TooShort))
  {
    DefaultAcceptance(wordList, Ascii("o/IiJ/OI/110dA6KMN8m10pk7ff0UDR0rcJIAYhY"), []);
  }

  /** Re-using the old password is refused as the same one when no truncation happens. */
  lemma SameRejected(p: Policy, wordList: seq<bytes>, password: bytes, pw: Option<UserInformation>)
    requires Truthy(password) && p.min[4] <= |password| <= 10000 && |password| <= p.max
    ensures CheckSpec(p, wordList, password, password, pw) == Ok(Rejected(SameAsOld))
  {
  }

  lemma UnifiedPrefix(s: bytes, n: nat)
    requires n <= |s|
    ensures Unified(s)[..n] == Unified(s[..n])
  {
  }

  /**
   * With max == 8 a password longer than 8 bytes is truncated before the
   * sameness test, so re-using it is not refused as the same one: its first
   * 8 bytes occur in the old password, which makes it similar where
   * similarity is denied and `match` is 1 to 8; a `match` of 0 or above 8,
   * or permitted similarity, lets it through.
   */
  lemma TruncatedReuse(p: Policy, wordList: seq<bytes>, password: bytes)
    requires ShiftSafe(p) && p.max == 8 && p.matchLength >= 0
    requires p.min[4] <= |password| <= 10000 && |password| > 8
    ensures CheckSpec(p, wordList, password, password, None) ==
      Ok(if SimilarDeny(p) && 1 <= p.matchLength <= 8 then Rejected(BasedOnOld) else Accepted)
  {
    CheckOnSafePolicy(p, wordList, password, password, None);
    var pwd := password[..8];
    UnifiedPrefix(password, 8);
    assert Occurs(Unified(password), Unified(pwd), 0);
  }

  /** A `match` of 0 switches off every similarity, personal, dictionary and sequence rejection. */
  lemma MatchZeroDisablesSimilarity(p: Policy, wordList: seq<bytes>, newPassword: bytes, oldPassword: bytes, pw: Option<UserInformation>)
    requires p.matchLength == 0
    ensures var v := CheckSpec(p, wordList, newPassword, oldPassword, pw);
      !(v.Ok? && v.value.Rejected? && v.value.reason in {BasedOnOld, PersonalInfo, DictionaryWord, CommonSequence})
  {
  }
}
