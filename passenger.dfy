/**
 * The Passenger record of MetroRouteOptimization.java: the checks its constructor makes
 * before accepting a name, an age and a phone number, and the two fields that change
 * afterwards (the bill and the student flag).
 */
module Passengers {
  import opened Wrappers

  /** `s.trim().isEmpty()`: `trim` strips every character at or below U+0020 from both ends. */
  predicate IsBlank(s: string)
  {
    forall i :: 0 <= i < |s| ==> s[i] <= ' '
  }

  /** The number of decimal digits of `m`. */
  function Digits(m: nat): (k: nat)
    ensures k >= 1
  {
    if m < 10 then 1 else 1 + Digits(m / 10)
  }

  /** `String.valueOf(x).length()`: the digits of `x`, plus one for the sign of a negative `x`. */
  function DecimalLength(x: int): nat
  {
    if x < 0 then 1 + Digits(-x) else Digits(x)
  }

  function Pow10(k: nat): (r: nat)
    ensures r >= 1 && (k >= 1 ==> r >= 10)
  {
    if k == 0 then 1 else 10 * Pow10(k - 1)
  }

  /** `m` has at most `k` digits exactly when it is below 10^k. */
  lemma {:induction false} DigitsBound(m: nat, k: nat)
    requires k >= 1
    ensures Digits(m) <= k <==> m < Pow10(k)
  {
    if m >= 10 && k > 1 {
      DigitsBound(m / 10, k - 1);
      assert m / 10 < Pow10(k - 1) <==> m < 10 * Pow10(k - 1);
    }
  }

  /** The ten-character phone numbers: ten digits, or a minus sign and nine digits. */
  lemma TenCharacters(x: int)
    ensures DecimalLength(x) == 10 <==>
              1_000_000_000 <= x <= 9_999_999_999 || -999_999_999 <= x <= -100_000_000
  {
    var m: nat := if x < 0 then -x else x;
    DigitsBound(m, 8);
    DigitsBound(m, 9);
    DigitsBound(m, 10);
    assert Pow10(8) == 100_000_000 && Pow10(9) == 1_000_000_000 && Pow10(10) == 10_000_000_000;
  }

  /**
   * The constructor's checks, in their order: the message of the IllegalArgumentException
   * it throws, or None when it accepts the arguments. `name` is None for a null reference.
   */
  function Validate(name: Option<string>, age: int, phoneNo: int): (err: Option<string>)
  {
    if name.None? || IsBlank(name.value) then Some("Name cannot be empty")
    else if age <= 0 || age > 120 then Some("Invalid age")
    else if DecimalLength(phoneNo) != 10 then Some("Phone number must be 10 digits")
    else None
  }

  /**
   * The constructor accepts exactly a name with a visible character, an age in 1..120 and a
   * phone number that prints as ten characters; the first failing check names the error.
   */
  lemma ValidateAccepts(name: Option<string>, age: int, phoneNo: int)
    ensures Validate(name, age, phoneNo).None? <==>
              name.Some? && !IsBlank(name.value) && 0 < age <= 120 &&
              (1_000_000_000 <= phoneNo <= 9_999_999_999 || -999_999_999 <= phoneNo <= -100_000_000)
    ensures (name.None? || IsBlank(name.value)) ==> Validate(name, age, phoneNo) == Some("Name cannot be empty")
    ensures name.Some? && !IsBlank(name.value) && (age <= 0 || age > 120) ==>
              Validate(name, age, phoneNo) == Some("Invalid age")
  {
    TenCharacters(phoneNo);
  }

  class Passenger {
    const name: string
    const age: int
    const phoneNo: int
    var billAmount: real
    var isStudent: bool
    const isSenior: bool

    /** A passenger whose arguments pass the checks: no bill yet, not a student, a senior from 60. */
    constructor (name: string, age: int, phoneNo: int)
      requires Validate(Some(name), age, phoneNo).None?
      ensures this.name == name && this.age == age && this.phoneNo == phoneNo
      ensures billAmount == 0.0 && !isStudent && (isSenior <==> age >= 60)
    {
      this.name := name;
      this.age := age;
      this.phoneNo := phoneNo;
      billAmount := 0.0;
      isStudent := false;
      isSenior := age >= 60;
    }

    method SetBillAmount(amount: real)
      modifies this
      ensures billAmount == amount && isStudent == old(isStudent)
    {
      billAmount := amount;
    }

    method SetStudentStatus(status: bool)
      modifies this
      ensures isStudent == status && billAmount == old(billAmount)
    {
      isStudent := status;
    }
  }

  /**
   * `new Passenger(name, age, phoneNo)`: the passenger, or the constructor's exception.
   */
  method CreatePassenger(name: Option<string>, age: int, phoneNo: int) returns (r: Result<Passenger>)
    ensures r.Failure? <==> Validate(name, age, phoneNo).Some?
    ensures r.Failure? ==> r.error == Validate(name, age, phoneNo).value
    ensures r.Success? ==>
              fresh(r.value) && name == Some(r.value.name) && r.value.age == age && r.value.phoneNo == phoneNo &&
              r.value.billAmount == 0.0 && !r.value.isStudent && (r.value.isSenior <==> age >= 60)
  {
    var err := Validate(name, age, phoneNo);
    if err.Some? {
      return Failure(err.value);
    }
    var p := new Passenger(name.value, age, phoneNo);
    return Success(p);
  }
}
