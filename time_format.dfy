/** The elapsed-time label of the React front end: `mm:ss`, where the minutes
    are the whole minutes written in decimal and padded with zeros to at least
    two digits, and the seconds are the remaining seconds padded to two digits. */
module TimeFormat {

  predicate IsDigit(ch: char) { '0' <= ch <= '9' }

  predicate AllDigits(s: string) {
    forall i :: 0 <= i < |s| ==> IsDigit(s[i])
  }

  function DigitChar(d: nat): (ch: char)
    requires d < 10
    ensures IsDigit(ch)
  {
    ('0' as int + d) as char
  }

  function DigitValue(ch: char): nat
    requires IsDigit(ch)
  {
    ch as int - '0' as int
  }

  /** The value of a string of decimal digits, most significant first. */
  function DigitsValue(s: string): nat
    requires AllDigits(s)
  {
    if s == [] then 0 else DigitsValue(s[..|s| - 1]) * 10 + DigitValue(s[|s| - 1])
  }

  /** A non-negative integer converted to a string: its decimal digits,
      with no leading zero. */
  function DecimalString(n: nat): (r: string)
    ensures 1 <= |r| && AllDigits(r)
    ensures n < 10 ==> |r| == 1
    ensures n < 100 ==> |r| <= 2
  {
    if n < 10 then [DigitChar(n)] else DecimalString(n / 10) + [DigitChar(n % 10)]
  }

  /** Reading the digits back gives the number, and the first digit is a zero
      only for zero itself. */
  lemma {:induction false} DecimalStringRoundTrip(n: nat)
    ensures DigitsValue(DecimalString(n)) == n
    ensures DecimalString(n)[0] == '0' <==> n == 0
  {
    var r := DecimalString(n);
    if n >= 10 {
      DecimalStringRoundTrip(n / 10);
      assert r[..|r| - 1] == DecimalString(n / 10);
      assert r[0] == DecimalString(n / 10)[0];
    }
  }

  /** String padStart: prefix `fill` until the string is `width` long. */
  function PadStart(s: string, width: nat, fill: char): (r: string)
    ensures |r| == if |s| >= width then |s| else width
    ensures r[|r| - |s|..] == s
    ensures forall i :: 0 <= i < |r| - |s| ==> r[i] == fill
  {
    if |s| >= width then s else seq(width - |s|, _ => fill) + s
  }

  /** Leading zeros do not change the value of a digit string. */
  lemma {:induction false} LeadingZerosValue(z: string, s: string)
    requires forall i :: 0 <= i < |z| ==> z[i] == '0'
    requires AllDigits(s)
    ensures AllDigits(z + s) && DigitsValue(z + s) == DigitsValue(s)
  {
    if s == [] {
      assert z + s == z;
      AllZerosValue(z);
    } else {
      var front := s[..|s| - 1];
      assert (z + s)[..|z + s| - 1] == z + front;
      LeadingZerosValue(z, front);
    }
  }

  lemma {:induction false} AllZerosValue(z: string)
    requires forall i :: 0 <= i < |z| ==> z[i] == '0'
    ensures AllDigits(z) && DigitsValue(z) == 0
  {
    if z != [] {
      AllZerosValue(z[..|z| - 1]);
    }
  }

  /** A number written with padStart(2, '0'): at least two digits, reading
      back to the number, with an extra leading zero only when the number has
      a single digit. */
  lemma PaddedDecimal(n: nat)
    ensures var r := PadStart(DecimalString(n), 2, '0');
      && |r| >= 2 && AllDigits(r) && DigitsValue(r) == n
      && (|r| == 2 || r[0] != '0')
      && (n < 100 ==> |r| == 2)
  {
    var d := DecimalString(n);
    var r := PadStart(d, 2, '0');
    DecimalStringRoundTrip(n);
    LeadingZerosValue(r[..|r| - |d|], d);
    assert r == r[..|r| - |d|] + d;
  }

  /** A clock label for `seconds`: a minutes part of at least two digits with
      no superfluous leading zero, a colon, and a two-digit seconds part below
      60, the two parts together making up `seconds`. */
  predicate IsTimeLabel(r: string, seconds: nat) {
    && |r| >= 5 && r[|r| - 3] == ':'
    && AllDigits(r[..|r| - 3]) && AllDigits(r[|r| - 2..])
    && DigitsValue(r[|r| - 2..]) < 60
    && DigitsValue(r[..|r| - 3]) * 60 + DigitsValue(r[|r| - 2..]) == seconds
    && (|r| == 5 || r[0] != '0')
  }

  /** Joining a minutes part and a two-digit seconds part with a colon gives
      the label of their total. */
  lemma JoinParts(m: string, s: string, minutes: nat, secs: nat)
    requires |m| >= 2 && AllDigits(m) && DigitsValue(m) == minutes && (|m| == 2 || m[0] != '0')
    requires |s| == 2 && AllDigits(s) && DigitsValue(s) == secs && secs < 60
    ensures IsTimeLabel(m + ":" + s, minutes * 60 + secs)
  {
    var r := m + ":" + s;
    assert |r| == |m| + 3 && r[|m|] == ':' && r[0] == m[0];
    assert r[..|r| - 3] == m;
    assert r[|r| - 2..] == s;
  }

  /** formatTime: whole minutes and remaining seconds, each padded to two
      digits, joined by a colon. */
  function FormatTime(seconds: nat): (r: string)
    ensures IsTimeLabel(r, seconds)
  {
    var m := PadStart(DecimalString(seconds / 60), 2, '0');
    var s := PadStart(DecimalString(seconds % 60), 2, '0');
    PaddedDecimal(seconds / 60);
    PaddedDecimal(seconds % 60);
    JoinParts(m, s, seconds / 60, seconds % 60);
    m + ":" + s
  }
}
