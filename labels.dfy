/** The day-number labels of the grid: the `"%d"` formatting that writes them
    and the one- or two-digit parse that reads a pressed button's label back. */
module Labels {

  function DigitChar(d: nat): (c: char)
    requires d < 10
    ensures '0' <= c <= '9' && c as int - '0' as int == d
  {
    ('0' as int + d) as char
  }

  predicate AllDigits(s: string)
  {
    forall i :: 0 <= i < |s| ==> '0' <= s[i] <= '9'
  }

  /** Decimal text of a non-negative number, as `"%d"` prints it. */
  function DecimalString(n: nat): (s: string)
    ensures 1 <= |s| && AllDigits(s)
    ensures n < 10 <==> |s| == 1
    ensures n < 100 ==> |s| <= 2
    ensures n > 0 ==> s[0] != '0'
  {
    if n < 10 then [DigitChar(n)] else DecimalString(n / 10) + [DigitChar(n % 10)]
  }

  /** The day a button label denotes: one digit when the second character is
      the terminator, otherwise the first two characters as two digits. */
  function ParseDay(txt: string): (day: int)
    requires |txt| >= 1
    ensures AllDigits(txt) ==> 0 <= day <= 99
    ensures AllDigits(txt) && |txt| == 1 ==> day <= 9
  {
    if |txt| == 1 then txt[0] as int - '0' as int
    else (txt[0] as int - '0' as int) * 10 + (txt[1] as int - '0' as int)
  }

  /** Formatting then parsing gives the number back for every one- or
      two-digit number. */
  lemma {:induction false} ParseDecimalString(n: nat)
    requires n <= 99
    ensures ParseDay(DecimalString(n)) == n
  {
    if n >= 10 {
      assert DecimalString(n) == [DigitChar(n / 10), DigitChar(n % 10)];
    }
  }
}
