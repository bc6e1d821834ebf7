/** What both command-line parsers do with an option's text: `isNumber`
    and `atoi` on the digit strings it accepts. An option's text is the C
    string `arg` up to its terminating NUL. */
module ArgCheck {
  import opened Bytes

  /** What a parser callback hands back to `argp_parse`: 0, `ARGP_ERR_UNKNOWN`,
      or a call of `argp_error`, which prints the message and ends the program. */
  datatype Reply = Handled | Unknown | Error(message: string)

  /** The key `argp_parse` passes once every option has been seen. */
  const ARGP_KEY_END: int := 0x100_0001

  /** The port rule both parsers enforce, with its messages. */
  const MIN_PORT: int := 1025
  const MAX_PORT: int := 65535
  const PORT_NOT_A_NUMBER := "Invalid option for a port, must be a number!"
  const PORT_OUT_OF_RANGE := "Port is supposed to be a value in between 1025 and 65535!"
  const PORT_REQUIRED := "Option -p (--port) is required!"

  /** `isdigit(c)` in the C locale. */
  predicate IsDigit(c: char)
  {
    '0' <= c <= '9'
  }

  /** Every character of `s` is a decimal digit; the empty string qualifies. */
  predicate AllDigits(s: string)
  {
    forall i | 0 <= i < |s| :: IsDigit(s[i])
  }

  /** `isNumber(s)`: scans `s` and answers false at the first character
      that is not a digit. */
  method IsNumber(s: string) returns (b: bool)
    ensures b <==> AllDigits(s)
  {
    for i := 0 to |s|
      invariant forall j | 0 <= j < i :: IsDigit(s[j])
    {
      if !IsDigit(s[i]) {
        return false;
      }
    }
    return true;
  }

  function DigitValue(c: char): nat
    requires IsDigit(c)
  {
    (c as int) - ('0' as int)
  }

  /** `atoi(s)` for a digit string `s`: its value in decimal, 0 when `s` is empty. */
  function DecimalValue(s: string): nat
    requires AllDigits(s)
  {
    if s == [] then 0 else 10 * DecimalValue(s[..|s| - 1]) + DigitValue(s[|s| - 1])
  }

  /** 10 to the power `k`. */
  function Pow10(k: nat): nat
  {
    if k == 0 then 1 else 10 * Pow10(k - 1)
  }

  lemma {:induction false} Pow10Grows(j: nat, k: nat)
    requires j <= k
    ensures Pow10(j) <= Pow10(k)
    decreases k
  {
    if j < k {
      Pow10Grows(j, k - 1);
    }
  }

  /** A string of `k` digits stands for less than `10^k`, so one of at most
      nine digits stands for a value that fits in an `int`: such a string
      always meets the requirement the parsers place on `atoi`. */
  lemma {:induction false} DecimalValueBound(s: string)
    requires AllDigits(s)
    ensures DecimalValue(s) < Pow10(|s|)
    ensures |s| <= 9 ==> DecimalValue(s) <= INT_MAX
  {
    if s != [] {
      DecimalValueBound(s[..|s| - 1]);
    }
    if |s| <= 9 {
      Pow10Grows(|s|, 9);
      assert Pow10(9) == 1_000_000_000;
    }
  }

  /** The decimal digits of `n`, most significant first, without leading zeros. */
  function Decimal(n: nat): (s: string)
    ensures AllDigits(s) && |s| >= 1
    ensures |s| > 1 ==> s[0] != '0'
  {
    var d := ['0' + (n % 10) as char];
    if n < 10 then d else Decimal(n / 10) + d
  }

  /** `atoi` reads back every number written in decimal. */
  lemma {:induction false} DecimalRoundTrip(n: nat)
    ensures DecimalValue(Decimal(n)) == n
  {
    var s := Decimal(n);
    if n >= 10 {
      DecimalRoundTrip(n / 10);
      assert s[..|s| - 1] == Decimal(n / 10);
    }
  }

  /** A leading zero does not change the value `atoi` gives. */
  lemma {:induction false} LeadingZero(s: string)
    requires AllDigits(s)
    ensures AllDigits("0" + s) && DecimalValue("0" + s) == DecimalValue(s)
  {
    if s != [] {
      LeadingZero(s[..|s| - 1]);
      assert ("0" + s)[..|s|] == "0" + s[..|s| - 1];
    }
  }

  /** The decimal text of every port the parsers accept, with or without a
      leading zero, passes `isNumber`, meets the `atoi` requirement and
      stands for that port, so `-p` accepts it. */
  lemma PortText(p: nat)
    requires MIN_PORT <= p <= MAX_PORT
    ensures AllDigits(Decimal(p)) && DecimalValue(Decimal(p)) == p <= INT_MAX
    ensures AllDigits("0" + Decimal(p)) && DecimalValue("0" + Decimal(p)) == p
  {
    DecimalRoundTrip(p);
    LeadingZero(Decimal(p));
  }
}
