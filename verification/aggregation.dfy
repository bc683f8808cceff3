/**
 The two pieces of arithmetic the charts rest on: the guard of
 `group_data`, which accepts six pandas offset aliases and returns `None`
 for any other, and the o'clock function `time_function` builds, which
 rounds a record's minute to a step of the hour chosen by the size of the
 data set.
 */
module Aggregation {
  import opened Wrappers

  /** The resampling periods `group_data` lets through. */
  datatype Period = Week | SemiMonth | Month | Quarter | Year | Hour

  /** The pandas offset alias of each period. */
  function AliasOf(p: Period): string {
    match p
    case Week => "W"
    case SemiMonth => "SM"
    case Month => "M"
    case Quarter => "Q"
    case Year => "A"
    case Hour => "H"
  }

  /** `available_offset`, in the order the source lists it. */
  const AvailableOffsets: seq<string> := ["W", "SM", "M", "Q", "A", "H"]

  /** `group_data(df, offset_alias='M')`: the period to resample by, or `None`
      (the implicit return) when the alias is not one of the six. */
  function GroupData(alias: string := "M"): (r: Option<Period>)
    ensures r.Some? <==> alias in AvailableOffsets
    ensures r.Some? ==> AliasOf(r.value) == alias
  {
    if alias == "W" then Some(Week)
    else if alias == "SM" then Some(SemiMonth)
    else if alias == "M" then Some(Month)
    else if alias == "Q" then Some(Quarter)
    else if alias == "A" then Some(Year)
    else if alias == "H" then Some(Hour)
    else None
  }

  /** Every period is reachable through its own alias, and the aliases are
      exactly the listed ones. */
  lemma GroupDataRoundTrip(p: Period)
    ensures AliasOf(p) in AvailableOffsets
    ensures GroupData(AliasOf(p)) == Some(p)
  {
  }

  /** The default alias is monthly; the test is case-sensitive. */
  lemma GroupDataExamples()
    ensures GroupData() == Some(Month)
    ensures GroupData("M") == Some(Month)
    ensures GroupData("m") == None
    ensures GroupData("D") == None
    ensures GroupData("") == None
  {
  }

  /** How finely `fn` divides the hour, from the number of records:
      whole hours up to 50, halves up to 100, quarters up to 200, and
      tenths beyond. */
  function StepsPerHour(size: nat): (d: nat)
    ensures d == 1 || d == 2 || d == 4 || d == 10
    ensures d == 1 <==> size <= 50
    ensures d <= 2 <==> size <= 100
    ensures d <= 4 <==> size <= 200
  {
    if size <= 50 then 1
    else if size <= 100 then 2
    else if size <= 200 then 4
    else 10
  }

  /** A larger data set never divides the hour more coarsely. */
  lemma StepsPerHourMonotone(a: nat, b: nat)
    requires a <= b
    ensures StepsPerHour(a) <= StepsPerHour(b)
    // a change of division at least halves the step
    ensures StepsPerHour(a) == StepsPerHour(b) || 2 * StepsPerHour(a) <= StepsPerHour(b)
  {
  }

  /** Within half a unit of `num / den`, the distance being measured in
      `den`-ths and doubled so that it stays an integer. */
  predicate Nearest(num: int, den: int, k: int) {
    -den <= 2 * (k * den - num) <= den
  }

  /** `k` lies exactly half way between `num / den` and a neighbour. */
  predicate Tie(num: int, den: int, k: int) {
    2 * (k * den - num) == den || 2 * (k * den - num) == -den
  }

  /** Python's `round` of the exact rational `num / den`: to the nearest
      integer, and to the even one of two equally near. */
  function RoundHalfEven(num: nat, den: nat): (k: nat)
    requires den > 0
    ensures Nearest(num, den, k)
    ensures Tie(num, den, k) ==> k % 2 == 0
  {
    var q := num / den;
    var twice := 2 * (num % den);
    assert num == q * den + num % den;
    assert (q + 1) * den == q * den + den;
    if twice < den then q
    else if twice > den then q + 1
    else if q % 2 == 0 then q
    else q + 1
  }

  /** Two different integers both within half a unit of `num / den` are
      both exactly half a unit away, one on each side. */
  lemma NearestTwice(num: int, den: int, k: int, j: int)
    requires den > 0 && k < j
    requires Nearest(num, den, k) && Nearest(num, den, j)
    ensures j == k + 1
    ensures 2 * (k * den - num) == -den && 2 * (j * den - num) == den
  {
    var x, y := k * den - num, j * den - num;
    assert (j - k - 1) * den == y - x - den;
    NonPositiveFactor(j - k - 1, den);
  }

  lemma NonPositiveFactor(a: int, b: int)
    requires b > 0 && a * b <= 0
    ensures a <= 0
  {
  }

  /** The contract of `RoundHalfEven` pins it down: no other integer is as
      near with the same tie rule. */
  lemma {:induction false} RoundHalfEvenUnique(num: nat, den: nat, k: int)
    requires den > 0
    requires Nearest(num, den, k)
    requires Tie(num, den, k) ==> k % 2 == 0
    ensures k == RoundHalfEven(num, den)
  {
    var r := RoundHalfEven(num, den);
    if k < r {
      NearestTwice(num, den, k, r);
    } else if r < k {
      NearestTwice(num, den, r, k);
    }
  }

  /** The ties of `round(minute / 60, 1)` are the minutes 6j + 3. Python
      rounds the binary64 value of `minute / 60`, which is exact only for
      15 and 45 (rounded to even: down and up) and otherwise lies just above
      the half-tenth for these minutes and just below it for 9, 21, 51 and
      57. */
  predicate TenthTieRoundsUp(minute: nat) {
    minute == 3 || minute == 27 || minute == 33 || minute == 39 || minute == 45
  }

  /** The number of tenths `round(minute / 60, 1)` yields. */
  function TenthsOfHour(minute: nat): (k: nat)
    requires minute < 60
    ensures Nearest(minute * 10, 60, k)
    ensures Tie(minute * 10, 60, k) ==> (k * 60 > minute * 10 <==> TenthTieRoundsUp(minute))
  {
    if minute % 6 == 3 then
      minute / 6 + (if TenthTieRoundsUp(minute) then 1 else 0)
    else
      RoundHalfEven(minute * 10, 60)
  }

  /** The value `fn(x)` returns, `hour + steps / perHour`, kept exact. */
  datatype OClock = OClock(hour: nat, steps: nat, perHour: nat)

  /** `time_function(df)(x)` for a data set of `size` records and a record
      stamped `hour:minute`. */
  function TimeOfDay(size: nat, hour: nat, minute: nat): (r: OClock)
    requires hour <= 23 && minute <= 59
    ensures r.hour == hour && r.perHour == StepsPerHour(size)
    ensures r.steps <= r.perHour
    ensures Nearest(minute * r.perHour, 60, r.steps)
    ensures r.perHour != 10 && Tie(minute * r.perHour, 60, r.steps) ==> r.steps % 2 == 0
    ensures r.perHour == 10 && Tie(minute * r.perHour, 60, r.steps) ==>
      (r.steps * 60 > minute * 10 <==> TenthTieRoundsUp(minute))
  {
    var d := StepsPerHour(size);
    var k := if d == 10 then TenthsOfHour(minute) else RoundHalfEven(minute * d, 60);
    OClock(hour, k, d)
  }

  /** Below the tenths, the step is exactly the half-even rounding of the
      minute's share of the hour. */
  lemma TimeOfDayIsHalfEven(size: nat, hour: nat, minute: nat)
    requires hour <= 23 && minute <= 59 && StepsPerHour(size) != 10
    ensures TimeOfDay(size, hour, minute).steps == RoundHalfEven(minute * StepsPerHour(size), 60)
  {
    var r := TimeOfDay(size, hour, minute);
    RoundHalfEvenUnique(minute * r.perHour, 60, r.steps);
  }

  /** A later minute of the same hour never gets an earlier step. */
  lemma {:induction false} TimeOfDayMonotone(size: nat, hour: nat, m1: nat, m2: nat)
    requires hour <= 23 && m1 < m2 <= 59
    ensures TimeOfDay(size, hour, m1).steps <= TimeOfDay(size, hour, m2).steps
  {
    var a := TimeOfDay(size, hour, m1);
    var b := TimeOfDay(size, hour, m2);
    var d := a.perHour;
    assert b.perHour == d;
    assert m1 * d < m2 * d;
    assert (a.steps - b.steps) * 60 < 60;
  }

  /** The step always reads as a share of the hour in `[0, 1]`; it reaches
      the next hour only in the last half step. */
  lemma TimeOfDayWithinHour(size: nat, hour: nat, minute: nat)
    requires hour <= 23 && minute <= 59
    ensures var r := TimeOfDay(size, hour, minute);
      r.steps == r.perHour ==> 2 * minute * r.perHour >= 60 * (2 * r.perHour - 1)
  {
  }

  lemma TimeOfDayExamples()
    ensures TimeOfDay(50, 7, 30) == OClock(7, 0, 1)
    ensures TimeOfDay(50, 7, 31) == OClock(7, 1, 1)
    ensures TimeOfDay(51, 7, 15) == OClock(7, 0, 2)
    ensures TimeOfDay(51, 7, 45) == OClock(7, 2, 2)
    ensures TimeOfDay(150, 7, 8) == OClock(7, 1, 4)
    ensures TimeOfDay(201, 7, 3) == OClock(7, 1, 10)
    ensures TimeOfDay(201, 7, 9) == OClock(7, 1, 10)
    ensures TimeOfDay(201, 23, 59) == OClock(23, 10, 10)
  {
  }
}
