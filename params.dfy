/**
 * The policy record of src/Params.php: five minimum lengths, a maximum
 * length, the passphrase word count, the common-substring length and the
 * old-password similarity switch, with setters that validate their input.
 */
module Params {
  import opened Bytes

  /** The `min` array: exactly five lengths, indexed 0..4. */
  type MinTable = s: seq<int> | |s| == 5 witness [0, 0, 0, 0, 0]

  /** The values a strength check reads from a Params object. */
  datatype Policy = Policy(min: MinTable, max: int, passphrase: int, matchLength: int, similar: string)

  /** The initial `min` of a fresh Params: one class disabled, then 24, 11, 8, 7. */
  const DefaultMin: MinTable := [IntMax, 24, 11, 8, 7]

  /** `new Params()`. */
  const DefaultPolicy: Policy := Policy(DefaultMin, 40, 3, 4, "deny")

  /** getSimilarDeny on a snapshot. */
  predicate SimilarDeny(p: Policy) {
    p.similar == "deny"
  }

  /** The exceptions the setters throw: \Exception and \RangeException. */
  datatype ParamsError = Failed | OutOfRange

  datatype Result<+T> = Success(value: T) | Failure(error: ParamsError) {
    predicate IsFailure() { Failure? }
    function PropagateFailure<U>(): Result<U> requires Failure? { Failure(error) }
    function Extract(): T requires Success? { value }
  }

  /** One value of the array given to setMin, as PHP sees it. */
  datatype MinEntry =
    | Null                // null: the length is disabled
    | Numeric(asInt: int) // is_numeric holds; asInt is what the (int) cast yields
    | NotNumeric          // any other scalar
    | Nested(count: nat)  // an array, with its own recursive element count

  /** count($min, COUNT_RECURSIVE). */
  function RecursiveCount(entries: seq<MinEntry>): nat {
    if entries == [] then 0
    else
      var last := entries[|entries| - 1];
      RecursiveCount(entries[..|entries| - 1]) + 1 + (if last.Nested? then last.count else 0)
  }

  /** The conversion at Params.php:157-163: null is disabled, numbers are cast, the rest throws. */
  function EntryValue(e: MinEntry): Result<int> {
    match e
    case Null => Success(IntMax)
    case Numeric(v) => Success(v)
    case _ => Failure(Failed)
  }

  /** The loop of setMin from entry i on, with the converted prefix acc. */
  function NormalizeFrom(entries: seq<MinEntry>, i: nat, acc: seq<int>): Result<MinTable>
    requires |entries| == 5 && i <= 5 && |acc| == i
    decreases 5 - i
  {
    if i == 5 then Success(acc)
    else
      var v :- EntryValue(entries[i]);
      if v < 0 then Failure(OutOfRange)
      else if i > 0 && v < acc[i - 1] then Failure(OutOfRange)
      else NormalizeFrom(entries, i + 1, acc + [v])
  }

  /** What setMin stores, or the exception it throws. */
  function NormalizeMin(entries: seq<MinEntry>): Result<MinTable> {
    if |entries| != 5 then Failure(Failed)
    else if RecursiveCount(entries) != 5 then Failure(Failed)
    else NormalizeFrom(entries, 0, [])
  }

  /** The independent reading of setMin's checks: five flat, convertible, non-negative, non-decreasing values. */
  ghost predicate Acceptable(entries: seq<MinEntry>) {
    |entries| == 5 &&
    (forall k | 0 <= k < 5 :: !entries[k].Nested?) &&
    (forall k | 0 <= k < 5 :: EntryValue(entries[k]).Success? && EntryValue(entries[k]).value >= 0) &&
    (forall k | 1 <= k < 5 :: EntryValue(entries[k - 1]).value <= EntryValue(entries[k]).value)
  }

  /** A mutable Params object. */
  class Params {
    var min: MinTable
    var max: int
    var passphrase: int
    var matchLength: int
    var similar: string

    /** What the constructor and every setter guarantee. */
    ghost predicate Valid()
      reads this
    {
      (forall k | 0 <= k < 5 :: min[k] >= 0) &&
      max >= 0 && passphrase >= 0 && matchLength >= 0 &&
      (similar == "permit" || similar == "deny")
    }

    function Snapshot(): Policy
      reads this
    {
      Policy(min, max, passphrase, matchLength, similar)
    }

    constructor ()
      ensures Valid() && Snapshot() == DefaultPolicy
    {
      min := DefaultMin;
      max := 40;
      passphrase := 3;
      matchLength := 4;
      similar := "deny";
    }

    /** getMin: the tier length, or a RangeException for an offset outside 0..4. */
    function GetMin(offset: int): (r: Result<int>)
      reads this
      ensures r.Success? <==> 0 <= offset <= 4
      ensures r.Success? ==> r.value == min[offset]
      ensures r.Failure? ==> r.error == OutOfRange
    {
      if offset < 0 || offset > 4 then Failure(OutOfRange) else Success(min[offset])
    }

    /** getSimilarDeny: on a valid object, exactly when similarity is not permitted. */
    function GetSimilarDeny(): (r: bool)
      reads this
      ensures Valid() ==> (r <==> similar != "permit")
      ensures r == SimilarDeny(Snapshot())
    {
      SimilarDeny(Snapshot())
    }

    /** setMin: validates all five entries and only then replaces `min`. */
    method SetMin(entries: seq<MinEntry>) returns (r: Result<Params>)
      requires Valid()
      modifies this
      ensures Valid()
      ensures NormalizeMin(entries).Success? ==> r == Success(this) && min == NormalizeMin(entries).value
      ensures NormalizeMin(entries).Failure? ==> r == Failure(NormalizeMin(entries).error) && min == old(min)
      ensures max == old(max) && passphrase == old(passphrase) && matchLength == old(matchLength) && similar == old(similar)
    {
      if |entries| != 5 {
        return Failure(Failed);
      }
      if RecursiveCount(entries) != 5 {
        return Failure(Failed);
      }
      var converted: seq<int> := [];
      for i := 0 to 5
        invariant |converted| == i
        invariant forall k | 0 <= k < i :: converted[k] >= 0
        invariant NormalizeFrom(entries, i, converted) == NormalizeMin(entries)
      {
        var v: int;
        match entries[i] {
          case Null => v := IntMax;
          case Numeric(n) => v := n;
          case _ => return Failure(Failed);
        }
        if v < 0 {
          return Failure(OutOfRange);
        }
        if i > 0 && v < converted[i - 1] {
          return Failure(OutOfRange);
        }
        converted := converted + [v];
      }
      min := converted;
      return Success(this);
    }

    /** setMinValue: one tier length, without re-checking the order. */
    method SetMinValue(value: int, offset: int) returns (r: Result<Params>)
      requires Valid()
      modifies this
      ensures Valid()
      ensures r.Success? <==> 0 <= offset <= 4 && value >= 0
      ensures r.Success? ==> r.value == this && min == old(min)[offset := value]
      ensures r.Failure? ==> r.error == OutOfRange && min == old(min)
      ensures max == old(max) && passphrase == old(passphrase) && matchLength == old(matchLength) && similar == old(similar)
    {
      if offset < 0 || offset > 4 {
        return Failure(OutOfRange);
      }
      if value < 0 {
        return Failure(OutOfRange);
      }
      min := min[offset := value];
      return Success(this);
    }

    method SetMax(max: int) returns (r: Result<Params>)
      requires Valid()
      modifies this
      ensures Valid()
      ensures r.Success? <==> max >= 0
      ensures r.Success? ==> r.value == this && this.max == max
      ensures r.Failure? ==> r.error == OutOfRange && this.max == old(this.max)
      ensures min == old(min) && passphrase == old(passphrase) && matchLength == old(matchLength) && similar == old(similar)
    {
      if max < 0 {
        return Failure(OutOfRange);
      }
      this.max := max;
      return Success(this);
    }

    method SetPassphrase(passphrase: int) returns (r: Result<Params>)
      requires Valid()
      modifies this
      ensures Valid()
      ensures r.Success? <==> passphrase >= 0
      ensures r.Success? ==> r.value == this && this.passphrase == passphrase
      ensures r.Failure? ==> r.error == OutOfRange && this.passphrase == old(this.passphrase)
      ensures min == old(min) && max == old(max) && matchLength == old(matchLength) && similar == old(similar)
    {
      if passphrase < 0 {
        return Failure(OutOfRange);
      }
      this.passphrase := passphrase;
      return Success(this);
    }

    method SetMatch(matchLength: int) returns (r: Result<Params>)
      requires Valid()
      modifies this
      ensures Valid()
      ensures r.Success? <==> matchLength >= 0
      ensures r.Success? ==> r.value == this && this.matchLength == matchLength
      ensures r.Failure? ==> r.error == OutOfRange && this.matchLength == old(this.matchLength)
      ensures min == old(min) && max == old(max) && passphrase == old(passphrase) && similar == old(similar)
    {
      if matchLength < 0 {
        return Failure(OutOfRange);
      }
      this.matchLength := matchLength;
      return Success(this);
    }

    method SetSimilar(similar: string) returns (r: Result<Params>)
      requires Valid()
      modifies this
      ensures Valid()
      ensures r.Success? <==> similar == "permit" || similar == "deny"
      ensures r.Success? ==> r.value == this && this.similar == similar
      ensures r.Failure? ==> r.error == Failed && this.similar == old(this.similar)
      ensures min == old(min) && max == old(max) && passphrase == old(passphrase) && matchLength == old(matchLength)
    {
      if similar == "permit" || similar == "deny" {
        this.similar := similar;
      } else {
        return Failure(Failed);
      }
      return Success(this);
    }
  }

  lemma {:induction false} NormalizeFromAccepts(entries: seq<MinEntry>, i: nat, acc: seq<int>)
    requires |entries| == 5 && i <= 5 && |acc| == i
    requires forall k | 0 <= k < i :: entries[k].Null? || entries[k].Numeric?
    requires forall k | 0 <= k < i :: acc[k] == EntryValue(entries[k]).value && acc[k] >= 0
    requires forall k | 1 <= k < i :: acc[k - 1] <= acc[k]
    ensures NormalizeFrom(entries, i, acc).Success? <==>
      (forall k | i <= k < 5 :: EntryValue(entries[k]).Success? && EntryValue(entries[k]).value >= 0) &&
      (forall k | i <= k < 5 && 1 <= k :: EntryValue(entries[k - 1]).value <= EntryValue(entries[k]).value)
    ensures NormalizeFrom(entries, i, acc).Success? ==>
      forall k | 0 <= k < 5 :: NormalizeFrom(entries, i, acc).value[k] == EntryValue(entries[k]).value
    decreases 5 - i
  {
    if i < 5 {
      var e := EntryValue(entries[i]);
      if e.Success? && e.value >= 0 && (i == 0 || acc[i - 1] <= e.value) {
        NormalizeFromAccepts(entries, i + 1, acc + [e.value]);
      }
    }
  }

  lemma {:induction false} RecursiveCountFlat(entries: seq<MinEntry>)
    ensures RecursiveCount(entries) >= |entries|
    ensures RecursiveCount(entries) == |entries| <==> forall k | 0 <= k < |entries| :: !(entries[k].Nested? && entries[k].count > 0)
  {
    if entries != [] {
      RecursiveCountFlat(entries[..|entries| - 1]);
      var init := entries[..|entries| - 1];
      assert forall k | 0 <= k < |init| :: init[k] == entries[k];
    }
  }

  /**
   * setMin succeeds exactly on five flat, convertible, non-negative entries in
   * non-decreasing order, and then stores their converted values.
   */
  lemma NormalizeMinAccepts(entries: seq<MinEntry>)
    ensures NormalizeMin(entries).Success? <==> Acceptable(entries)
    ensures NormalizeMin(entries).Success? ==>
      forall k | 0 <= k < 5 :: NormalizeMin(entries).value[k] == EntryValue(entries[k]).value
  {
    RecursiveCountFlat(entries);
    if |entries| == 5 {
      NormalizeFromAccepts(entries, 0, []);
    }
  }

  /** What setMin stores is non-negative and non-decreasing. */
  lemma NormalizeMinSorted(entries: seq<MinEntry>)
    requires NormalizeMin(entries).Success?
    ensures forall k | 0 <= k < 5 :: NormalizeMin(entries).value[k] >= 0
    ensures forall k | 1 <= k < 5 :: NormalizeMin(entries).value[k - 1] <= NormalizeMin(entries).value[k]
  {
    NormalizeMinAccepts(entries);
  }

  /** setMin refuses the very array a fresh Params starts with: 24 is below PHP_INT_MAX. */
  lemma DefaultMinRefused()
    ensures NormalizeMin([Null, Numeric(24), Numeric(11), Numeric(8), Numeric(7)]) == Failure(OutOfRange)
  {
    var e := [Null, Numeric(24), Numeric(11), Numeric(8), Numeric(7)];
    RecursiveCountFlat(e);
    assert NormalizeFrom(e, 1, [IntMax]) == Failure(OutOfRange);
  }
}
