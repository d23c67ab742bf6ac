/**
 * The clock face drawn by updateDisplay: a whole number of seconds split
 * into minutes and seconds, each written in decimal and left-padded with
 * '0' to at least two characters.
 */
module Clock {

  /** Minutes and seconds of a countdown value. */
  datatype Face = Face(minutes: nat, seconds: nat)

  /** The two strings written to the minutes and seconds elements. */
  datatype FaceText = FaceText(minutes: string, seconds: string)

  /** Integer split of `t` seconds; for t >= 0, Math.floor(t / 60) and t % 60 agree with Dafny's / and %. */
  function Split(t: nat): (f: Face)
    ensures f.seconds < 60
    ensures f.minutes * 60 + f.seconds == t
  {
    Face(t / 60, t % 60)
  }

  /** The split is the only pair with these two properties. */
  lemma SplitUnique(t: nat, m: nat, s: nat)
    requires s < 60 && m * 60 + s == t
    ensures Split(t) == Face(m, s)
  {
  }

  predicate IsDigit(c: char) {
    '0' <= c <= '9'
  }

  predicate AllDigits(s: string) {
    forall i :: 0 <= i < |s| ==> IsDigit(s[i])
  }

  function DigitValue(c: char): (d: nat)
    requires IsDigit(c)
    ensures d < 10
  {
    (c as int) - ('0' as int)
  }

  function DigitChar(d: nat): (c: char)
    requires d < 10
    ensures IsDigit(c) && DigitValue(c) == d
  {
    (('0' as int) + d) as char
  }

  /** Number.prototype.toString() of a non-negative integer: decimal digits without leading zeros. */
  function DecimalString(n: nat): (s: string)
    ensures 1 <= |s|
    ensures AllDigits(s)
    ensures |s| > 1 ==> s[0] != '0'
    decreases n
  {
    if n < 10 then [DigitChar(n)] else DecimalString(n / 10) + [DigitChar(n % 10)]
  }

  /** The value of a string of decimal digits (leading zeros allowed). */
  function ValueOf(s: string): nat
    requires AllDigits(s)
    decreases |s|
  {
    if s == [] then 0 else ValueOf(s[..|s| - 1]) * 10 + DigitValue(s[|s| - 1])
  }

  /** String.prototype.padStart(width, fill). */
  function PadStart(s: string, width: nat, fill: char): (r: string)
    ensures |r| == if |s| < width then width else |s|
    ensures r[|r| - |s|..] == s
    ensures forall i :: 0 <= i < |r| - |s| ==> r[i] == fill
  {
    if |s| < width then seq(width - |s|, _ => fill) + s else s
  }

  /**
   * The text of the clock face for `t` seconds remaining. It is digits only,
   * the seconds part is exactly two characters, the minutes part at least two
   * (exactly two below 100 minutes), and reading both back recovers t.
   */
  function Render(t: nat): (r: FaceText)
    ensures AllDigits(r.minutes) && AllDigits(r.seconds)
    ensures |r.seconds| == 2 && 2 <= |r.minutes|
    ensures t < 100 * 60 ==> |r.minutes| == 2
    ensures ValueOf(r.minutes) == Split(t).minutes && ValueOf(r.seconds) == Split(t).seconds
    ensures ValueOf(r.minutes) * 60 + ValueOf(r.seconds) == t
  {
    var f := Split(t);
    PaddedRoundTrip(f.minutes, 2);
    PaddedRoundTrip(f.seconds, 2);
    DecimalShort(f.seconds);
    DecimalShort(f.minutes);
    FaceText(PadStart(DecimalString(f.minutes), 2, '0'), PadStart(DecimalString(f.seconds), 2, '0'))
  }

  /** Reading back the decimal string of n gives n. */
  lemma {:induction false} DecimalRoundTrip(n: nat)
    ensures ValueOf(DecimalString(n)) == n
  {
    var s := DecimalString(n);
    if n < 10 {
      assert s[..|s| - 1] == [];
    } else {
      DecimalRoundTrip(n / 10);
      assert s[..|s| - 1] == DecimalString(n / 10);
    }
  }

  /** Numbers below 100 have at most two decimal digits. */
  lemma DecimalShort(n: nat)
    ensures n < 100 ==> |DecimalString(n)| <= 2
  {
    if 10 <= n < 100 {
      assert |DecimalString(n / 10)| == 1;
    }
  }

  lemma {:induction false} ZerosValue(z: string)
    requires forall i :: 0 <= i < |z| ==> z[i] == '0'
    ensures AllDigits(z) && ValueOf(z) == 0
  {
    if z != [] {
      ZerosValue(z[..|z| - 1]);
    }
  }

  /** Leading '0' characters do not change the value of a digit string. */
  lemma {:induction false} LeadingZeros(z: string, s: string)
    requires forall i :: 0 <= i < |z| ==> z[i] == '0'
    requires AllDigits(s)
    ensures AllDigits(z + s) && ValueOf(z + s) == ValueOf(s)
    decreases |s|
  {
    if s == [] {
      assert z + s == z;
      ZerosValue(z);
    } else {
      var p := s[..|s| - 1];
      LeadingZeros(z, p);
      assert (z + s)[..|z + s| - 1] == z + p;
    }
  }

  /** Reading back a zero-padded decimal string gives the number. */
  lemma PaddedRoundTrip(n: nat, width: nat)
    ensures AllDigits(PadStart(DecimalString(n), width, '0'))
    ensures ValueOf(PadStart(DecimalString(n), width, '0')) == n
  {
    var s := DecimalString(n);
    var r := PadStart(s, width, '0');
    var z := r[..|r| - |s|];
    assert r == z + s;
    LeadingZeros(z, s);
    DecimalRoundTrip(n);
  }
}
