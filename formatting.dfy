/**
 * The arithmetic behind the program's human-readable counts: which unit a
 * count is shown in, its whole part and its single truncated tenths digit
 * (find_remainder, print_human_readable_number), and which "Passing ...
 * attempts" message a loop count produces (print_loop_interval). The printed
 * text itself is not modelled.
 */
module Formatting {
  import opened Wrappers

  const OneThousand: nat := 1000
  const OneMillion: nat := 1_000_000
  const OneBillion: nat := 1_000_000_000
  const OneTrillion: nat := 1_000_000_000_000
  const OneQuadrillion: nat := 1_000_000_000_000_000

  datatype Unit = Thousand | Million | Billion | Trillion

  function Base(u: Unit): nat {
    match u
    case Thousand => OneThousand
    case Million => OneMillion
    case Billion => OneBillion
    case Trillion => OneTrillion
  }

  /**
   * x is shown in unit u: its whole part in u has at most three digits and,
   * above thousands, is at least 1.
   */
  predicate InUnit(x: nat, u: Unit) {
    x < 1000 * Base(u) && (u == Thousand || Base(u) <= x)
  }

  /** Euclidean division has one quotient and one remainder. */
  lemma DivModUnique(x: int, d: int, q: int, r: int)
    requires 0 < d && 0 <= r < d && x == d * q + r
    ensures x / d == q && x % d == r
  {
    var q', r' := x / d, x % d;
    if q' < q {
      assert d * q - d * q' == d * (q - q');
      MulAtLeast(d, q - q');
    } else if q < q' {
      assert d * q' - d * q == d * (q' - q);
      MulAtLeast(d, q' - q);
    }
  }

  lemma MulAtLeast(d: int, k: int)
    requires 0 < d && 1 <= k
    ensures d * k >= d
  {
  }

  /**
   * The digit of x in units of t, read from x's remainder modulo 10 t: it is
   * the last digit of x / t, and x lies between that digit and the next.
   */
  lemma {:induction false} TenthsDigit(x: nat, t: nat)
    requires 0 < t
    ensures x % (10 * t) / t == x / t % 10
    ensures 10 * t * (x / (10 * t)) + t * (x / t % 10) <= x
    ensures x < 10 * t * (x / (10 * t)) + t * (x / t % 10 + 1)
  {
    var q, r := x / (10 * t), x % (10 * t);
    var a, b := r / t, r % t;
    assert x == 10 * t * q + r;
    assert r == t * a + b;
    QuotientBelow(r, t, 10);
    assert t * (10 * q + a) == 10 * t * q + t * a;
    DivModUnique(x, t, 10 * q + a, b);
    DivModUnique(10 * q + a, 10, q, a);
    assert t * (a + 1) == t * a + t;
  }

  /** Below k units of t, the quotient by t is below k. */
  lemma QuotientBelow(r: nat, t: nat, k: nat)
    requires 0 < t && r < k * t
    ensures r / t < k
  {
  }

  /** find_remainder: the tenths digit of the count in its unit (none above billions). */
  function FindRemainder(number: nat): (r: nat)
    ensures r <= 9
    ensures forall u :: InUnit(number, u) && u != Trillion ==> r == number / (Base(u) / 10) % 10
    ensures number >= OneTrillion ==> r == 0
  {
    TenthsDigit(number, 100);
    TenthsDigit(number, 100000);
    TenthsDigit(number, 100000000);
    if number < OneMillion then
      if number % OneThousand < 100 then 0 else number % OneThousand / 100
    else if number < OneBillion then
      if number % OneMillion < 100000 then 0 else number % OneMillion / 100000
    else if number < OneTrillion then
      if number % OneBillion < 100000000 then 0 else number % OneBillion / 100000000
    else
      0
  }

  /** What print_human_readable_number shows: "~whole.tenths unit", or the fallback message. */
  datatype Reading = Approx(whole: nat, tenths: nat, unit: Unit) | WastingCpu

  /** print_human_readable_number, without the text. */
  function HumanReadable(number: nat): (r: Reading)
    ensures r.Approx? <==> number < OneQuadrillion
    ensures r.Approx? ==> InUnit(number, r.unit)
    ensures r.Approx? ==> r.whole == number / Base(r.unit) && r.whole < 1000
    ensures r.Approx? ==> r.tenths == FindRemainder(number)
  {
    var remainder := FindRemainder(number);
    if number < OneMillion then Approx(number / OneThousand, remainder, Thousand)
    else if number < OneBillion then Approx(number / OneMillion, remainder, Million)
    else if number < OneTrillion then Approx(number / OneBillion, remainder, Billion)
    else if number < OneQuadrillion then Approx(number / OneTrillion, remainder, Trillion)
    else WastingCpu
  }

  /** Every count below a quadrillion is shown in exactly one unit. */
  lemma UnitUnique(x: nat, u: Unit, v: Unit)
    requires InUnit(x, u) && InUnit(x, v)
    ensures u == v
  {
  }

  /**
   * Below a trillion the reading is the count truncated (not rounded) to one
   * decimal of its unit: whole.tenths units <= count < whole.(tenths+1) units.
   */
  lemma {:induction false} HumanReadableTruncates(number: nat)
    requires number < OneTrillion
    ensures var r := HumanReadable(number);
      && r.Approx?
      && Base(r.unit) * r.whole + Base(r.unit) / 10 * r.tenths <= number
      && number < Base(r.unit) * r.whole + Base(r.unit) / 10 * (r.tenths + 1)
  {
    var r := HumanReadable(number);
    var tenth := Base(r.unit) / 10;
    TenthsDigit(number, tenth);
    assert Base(r.unit) == 10 * tenth;
  }

  /** A "Passing count unit attempts..." progress message. */
  datatype Milestone = Milestone(count: nat, unit: Unit)

  /** The spacing of progress messages within a unit. */
  function Spacing(u: Unit): nat {
    if u == Million then 100 * OneMillion else Base(u)
  }

  /** print_loop_interval: at most one progress message for a loop count. */
  function LoopInterval(attempts: nat): (r: Option<Milestone>)
    ensures r.Some? ==> r.value.unit != Thousand
    ensures r.Some? ==> attempts == r.value.count * Base(r.value.unit)
  {
    if attempts < OneBillion && attempts % (OneMillion * 100) == 0 then
      Some(Milestone(attempts / OneMillion, Million))
    else if attempts < OneTrillion && attempts % OneBillion == 0 then
      Some(Milestone(attempts / OneBillion, Billion))
    else if attempts < OneQuadrillion && attempts % OneTrillion == 0 then
      Some(Milestone(attempts / OneTrillion, Trillion))
    else
      None
  }

  /**
   * For a positive count, a progress message appears exactly when the count
   * is a whole multiple of its unit's spacing (100 million, 1 billion,
   * 1 trillion) below a quadrillion, and it agrees with the human-readable
   * reading of the same count, whose tenths digit is then 0.
   */
  lemma {:induction false} LoopIntervalMatchesReading(attempts: nat)
    requires 0 < attempts
    ensures var h := HumanReadable(attempts);
      LoopInterval(attempts).Some? <==>
        h.Approx? && h.unit != Thousand && attempts % Spacing(h.unit) == 0
    ensures var h := HumanReadable(attempts);
      LoopInterval(attempts).Some? ==>
        LoopInterval(attempts).value == Milestone(h.whole, h.unit) && h.tenths == 0
  {
    var h := HumanReadable(attempts);
    MultipleAtLeast(attempts, 100 * OneMillion);
    MultipleAtLeast(attempts, OneBillion);
    MultipleAtLeast(attempts, OneTrillion);
    if attempts % (100 * OneMillion) == 0 {
      MultipleOfFactor(attempts, OneMillion, 100);
    }
  }

  /** A positive multiple of d is at least d. */
  lemma MultipleAtLeast(x: nat, d: nat)
    requires 0 < d
    ensures 0 < x && x % d == 0 ==> d <= x
  {
  }

  /** A multiple of a * b is a multiple of a. */
  lemma MultipleOfFactor(x: nat, a: nat, b: nat)
    requires 0 < a && 0 < b && x % (a * b) == 0
    ensures x % a == 0
  {
    var q := x / (a * b);
    assert x == a * (b * q);
    DivModUnique(x, a, b * q, 0);
  }

  /** Worked examples of the formatter and the progress messages. */
  lemma FormattingExamples()
    ensures HumanReadable(1234567) == Approx(1, 2, Million)
    ensures HumanReadable(999) == Approx(0, 9, Thousand)
    ensures HumanReadable(1500000000000) == Approx(1, 0, Trillion)
    ensures HumanReadable(OneQuadrillion) == WastingCpu
    ensures LoopInterval(100000000) == Some(Milestone(100, Million))
    ensures LoopInterval(150000000) == None
    ensures LoopInterval(3 * OneBillion) == Some(Milestone(3, Billion))
  {
  }
}
