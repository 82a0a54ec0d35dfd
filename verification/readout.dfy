/** The elapsed-time readout beside the progress bar: `0M:SS` while the
    advert runs, a fixed "01:00" once the total is reached. The page builds
    it with JavaScript's `Math.floor`, truncating `%`, `toString` and
    `padStart`; each is written out here. `DigitsToNat` and `ParseReadout`
    read the text back and are the partner the readout is checked against. */
module Readout {
  import opened Wrappers

  /** The character for a decimal digit. */
  function DigitChar(d: nat): char
    requires d < 10
  {
    ('0' as int + d) as char
  }

  predicate IsDigit(c: char) {
    '0' <= c <= '9'
  }

  predicate AllDigits(s: string) {
    forall i :: 0 <= i < |s| ==> IsDigit(s[i])
  }

  /** The value of a decimal digit character. */
  function DigitValue(c: char): nat
    requires IsDigit(c)
  {
    (c as int - '0' as int) as nat
  }

  /** Decimal digits of a natural number, most significant first, without
      leading zeros (a single "0" for zero). */
  function NatToDigits(n: nat): (r: string)
    ensures |r| > 0 && AllDigits(r)
    ensures n < 10 <==> |r| == 1
  {
    if n < 10 then [DigitChar(n)] else NatToDigits(n / 10) + [DigitChar(n % 10)]
  }

  /** The number a string of decimal digits denotes. */
  function DigitsToNat(s: string): nat
    requires AllDigits(s)
  {
    if |s| == 0 then 0 else DigitsToNat(s[..|s| - 1]) * 10 + DigitValue(s[|s| - 1])
  }

  /** Reading the digits back gives the number that was printed. */
  lemma {:induction false} DigitsRoundTrip(n: nat)
    ensures DigitsToNat(NatToDigits(n)) == n
  {
    var r := NatToDigits(n);
    if n >= 10 {
      DigitsRoundTrip(n / 10);
      assert r[..|r| - 1] == NatToDigits(n / 10);
      assert DigitValue(r[|r| - 1]) == n % 10;
      assert (n / 10) * 10 + n % 10 == n;
    }
  }

  /** A leading zero does not change the value of a digit string. */
  lemma {:induction false} LeadingZero(s: string)
    requires AllDigits(s)
    ensures DigitsToNat(['0'] + s) == DigitsToNat(s)
  {
    if |s| > 0 {
      var t := ['0'] + s;
      assert t[..|t| - 1] == ['0'] + s[..|s| - 1];
      LeadingZero(s[..|s| - 1]);
    }
  }

  /** `Number.prototype.toString` on an integer: a minus sign, then the
      digits of the magnitude. */
  function IntToString(i: int): (r: string)
    ensures 0 <= i ==> AllDigits(r) && DigitsToNat(r) == i
    ensures i < 0 ==> |r| > 1 && r[0] == '-' && AllDigits(r[1..]) && DigitsToNat(r[1..]) == -i
    ensures 0 <= i ==> r == NatToDigits(i)
  {
    if i < 0 then
      DigitsRoundTrip(-i);
      var r := "-" + NatToDigits(-i);
      assert r[1..] == NatToDigits(-i);
      r
    else
      DigitsRoundTrip(i);
      NatToDigits(i)
  }

  /** JavaScript's `%`: the remainder takes the sign of the dividend. */
  function TruncRem(a: int, b: int): (r: int)
    requires b > 0
    ensures -b < r < b
    ensures 0 <= a ==> r == a % b
    ensures a < 0 ==> r <= 0
    ensures (a - r) % b == 0
  {
    if a >= 0 then
      var q := a / b;
      assert a - a % b == b * q;
      MultipleRemainder(q, b);
      a % b
    else
      var q := (-a) / b;
      assert a - -((-a) % b) == b * -q;
      MultipleRemainder(-q, b);
      -((-a) % b)
  }

  /** A multiple of `b` leaves no remainder. */
  lemma MultipleRemainder(k: int, b: int)
    requires b > 0
    ensures (b * k) % b == 0
  {
    var d, r := (b * k) / b, (b * k) % b;
    assert b * k == b * d + r && 0 <= r < b;
    assert r == b * (k - d);
    ScaledBounds(b, k - d);
  }

  /** A non-zero multiple of a positive `b` is at least `b` away from 0. */
  lemma ScaledBounds(b: int, x: int)
    requires b > 0
    ensures x >= 1 ==> b * x >= b
    ensures x <= -1 ==> b * x <= -b
  {
  }

  /** `n` copies of `c`. */
  function Repeat(c: char, n: nat): (r: string)
    ensures |r| == n
    ensures forall i :: 0 <= i < n ==> r[i] == c
  {
    if n == 0 then "" else [c] + Repeat(c, n - 1)
  }

  /** `String.prototype.padStart(width, fill)` with a one-character fill. */
  function PadStart(s: string, width: nat, fill: char): (r: string)
    ensures |s| < width ==> |r| == width && r[width - |s|..] == s
    ensures |s| < width ==> forall i :: 0 <= i < width - |s| ==> r[i] == fill
    ensures width <= |s| ==> r == s
  {
    if |s| >= width then s else Repeat(fill, width - |s|) + s
  }

  /** The minutes field: the whole minutes elapsed, floored, printed as an
      integer. */
  function MinuteField(elapsed: real): string {
    IntToString((elapsed / 60.0).Floor)
  }

  /** The seconds field: the whole seconds elapsed, reduced by JavaScript's
      remainder by sixty, printed and left-padded with zeros to two
      characters. */
  function SecondField(elapsed: real): string {
    PadStart(IntToString(TruncRem(elapsed.Floor, 60)), 2, '0')
  }

  /** The readout for `elapsed` seconds of an advert of `total` seconds:
      while the advert runs it reads back as the whole seconds elapsed, and
      from the total on it is the fixed text for one minute. */
  function ReadoutText(elapsed: real, total: real): (r: string)
    ensures 0.0 <= elapsed < total ==> ParseReadout(r) == Some(elapsed.Floor)
    ensures 0.0 <= elapsed < total ==>
              r == "0" + NatToDigits(elapsed.Floor / 60) + ":" + PadStart(NatToDigits(elapsed.Floor % 60), 2, '0')
    ensures total <= elapsed ==> r == "01:00" && ParseReadout(r) == Some(60)
  {
    if elapsed < total then
      RunningRoundTrip(elapsed);
      "0" + MinuteField(elapsed) + ":" + SecondField(elapsed)
    else
      EndTextParses();
      "01:00"
  }

  /** Reads a `0M:SS` text back as a number of seconds; `None` when the text
      does not have that shape. */
  function ParseReadout(s: string): Option<int> {
    if |s| >= 4 && s[0] == '0' && s[|s| - 3] == ':' then ParseClock(s[1..|s| - 3], s[|s| - 2..])
    else None
  }

  /** Minutes and seconds fields, as digit strings, to seconds. */
  function ParseClock(minutes: string, seconds: string): Option<int> {
    if AllDigits(minutes) && AllDigits(seconds)
    then Some(DigitsToNat(minutes) * 60 + DigitsToNat(seconds))
    else None
  }

  /** Minutes of a non-negative time: `Math.floor(e / 60)` is the whole
      seconds divided by sixty. */
  lemma FloorMinutes(e: real)
    ensures (e / 60.0).Floor == e.Floor / 60
  {
    var n := e.Floor;
    var q := n / 60;
    assert n as real <= e < n as real + 1.0;
    assert 60 * q <= n < 60 * q + 60;
    assert (60 * q) as real <= e;
    assert e < (60 * q + 60) as real;
    assert q as real <= e / 60.0 < q as real + 1.0;
  }

  /** The seconds field: `padStart` turns a remainder below sixty into two
      digits that read back as that remainder. */
  lemma SecondsField(k: nat)
    requires k < 60
    ensures |PadStart(NatToDigits(k), 2, '0')| == 2
    ensures AllDigits(PadStart(NatToDigits(k), 2, '0'))
    ensures DigitsToNat(PadStart(NatToDigits(k), 2, '0')) == k
  {
    var d := NatToDigits(k);
    DigitsRoundTrip(k);
    if k < 10 {
      assert PadStart(d, 2, '0') == ['0'] + d;
      LeadingZero(d);
    } else {
      assert NatToDigits(k / 10) == [DigitChar(k / 10)];
    }
  }

  /** Any text `0` + minute digits + `:` + two second digits parses back
      to minutes times sixty plus seconds. */
  lemma ParseFields(md: string, sd: string)
    requires |md| > 0 && AllDigits(md)
    requires |sd| == 2 && AllDigits(sd)
    ensures ParseReadout("0" + md + ":" + sd) == Some(DigitsToNat(md) * 60 + DigitsToNat(sd))
  {
    FieldsOfText(md, sd);
    ParseSplit("0" + md + ":" + sd, md, sd);
    ClockOfDigits(md, sd);
  }

  /** Digit fields read as minutes times sixty plus seconds. */
  lemma ClockOfDigits(md: string, sd: string)
    requires AllDigits(md) && AllDigits(sd)
    ensures ParseClock(md, sd) == Some(DigitsToNat(md) * 60 + DigitsToNat(sd))
  {
  }

  /** A text whose fields are known parses as those fields. */
  lemma ParseSplit(s: string, md: string, sd: string)
    requires |s| >= 4 && s[0] == '0' && s[|s| - 3] == ':'
    requires s[1..|s| - 3] == md && s[|s| - 2..] == sd
    ensures ParseReadout(s) == ParseClock(md, sd)
  {
  }

  /** Where the fields of a `0M:SS` text sit. */
  lemma FieldsOfText(md: string, sd: string)
    requires |sd| == 2
    ensures var s := "0" + md + ":" + sd;
            && |s| >= 4 && s[0] == '0' && s[|s| - 3] == ':'
            && s[1..|s| - 3] == md && s[|s| - 2..] == sd
  {
    var s := "0" + md + ":" + sd;
    assert s[1..|s| - 3] == md;
  }

  /** While the advert runs, the readout is "0", the minute digits, ":" and
      the two-digit seconds of the whole seconds elapsed. */
  lemma RunningText(elapsed: real)
    requires 0.0 <= elapsed
    ensures 0 <= elapsed.Floor
    ensures MinuteField(elapsed) == NatToDigits(elapsed.Floor / 60)
    ensures SecondField(elapsed) == PadStart(NatToDigits(elapsed.Floor % 60), 2, '0')
  {
    var n := elapsed.Floor;
    FloorMinutes(elapsed);
    assert TruncRem(n, 60) == n % 60;
  }

  /** For a non-negative time, the running form of the readout reads back
      as the whole seconds elapsed. */
  lemma RunningRoundTrip(elapsed: real)
    ensures 0.0 <= elapsed ==>
              ParseReadout("0" + MinuteField(elapsed) + ":" + SecondField(elapsed)) == Some(elapsed.Floor)
    ensures 0.0 <= elapsed ==>
              && MinuteField(elapsed) == NatToDigits(elapsed.Floor / 60)
              && SecondField(elapsed) == PadStart(NatToDigits(elapsed.Floor % 60), 2, '0')
  {
    if elapsed < 0.0 {
      return;
    }
    RunningText(elapsed);
    var n := elapsed.Floor;
    var m: nat := n / 60;
    var sec: nat := n % 60;
    var md, sd := NatToDigits(m), PadStart(NatToDigits(sec), 2, '0');
    SecondsField(sec);
    DigitsRoundTrip(m);
    ParseFields(md, sd);
    assert m * 60 + sec == n;
  }

  /** The fixed end text reads back as one minute. */
  lemma EndTextParses()
    ensures ParseReadout("01:00") == Some(60)
  {
    assert "01:00" == "0" + "1" + ":" + "00";
    assert DigitsToNat("1") == 1;
    assert DigitsToNat("00") == 0 by {
      assert "00"[..1] == "0";
    }
    ParseFields("1", "00");
  }

  /** Under a minute, the fields print as "00:" and two second digits. */
  lemma UnderAMinuteText(n: int)
    requires 0 <= n < 60
    ensures "0" + NatToDigits(n / 60) + ":" + PadStart(NatToDigits(n % 60), 2, '0')
            == "00:" + PadStart(NatToDigits(n), 2, '0')
    ensures |PadStart(NatToDigits(n), 2, '0')| == 2
  {
    assert n / 60 == 0 && n % 60 == n;
    assert NatToDigits(0) == "0";
    SecondsField(n);
  }

  /** With a one-minute advert the readout always has the `MM:SS` shape of
      five characters, starting "00:" until the minute is up. */
  lemma ReadoutShape(elapsed: real)
    requires 0.0 <= elapsed
    ensures |ReadoutText(elapsed, 60.0)| == 5
    ensures elapsed < 60.0 ==> ReadoutText(elapsed, 60.0)[..3] == "00:"
  {
    if elapsed < 60.0 {
      RunningText(elapsed);
      var n := elapsed.Floor;
      assert n as real <= elapsed;
      UnderAMinuteText(n);
      var sd := PadStart(NatToDigits(n), 2, '0');
      assert ReadoutText(elapsed, 60.0) == "00:" + sd;
    }
  }
}
