/** The output file name TakeScreenshot derives from the firmware clock:
    `%02d%02d%02d%02d.png` of day, hour, minute and second, printed into a
    13-character buffer, or `scrnshot.png` when the clock cannot be read. */
module FileName {
  import opened Efi

  /** The fields of EFI_TIME the name uses; each is a UINT8. */
  datatype Time = Time(day: byte, hour: byte, minute: byte, second: byte)

  predicate IsDigit(c: char) {
    '0' <= c <= '9'
  }

  predicate AllDigits(s: string) {
    forall i :: 0 <= i < |s| ==> IsDigit(s[i])
  }

  function DigitValue(c: char): (d: nat)
    requires IsDigit(c)
    ensures d < 10
  {
    c as int - '0' as int
  }

  function DigitChar(d: nat): (c: char)
    requires d < 10
    ensures IsDigit(c) && DigitValue(c) == d
  {
    ('0' as int + d) as char
  }

  /** The number a string of decimal digits denotes. */
  function DecimalValue(s: string): nat
    requires AllDigits(s)
  {
    if |s| == 0 then 0 else 10 * DecimalValue(s[..|s| - 1]) + DigitValue(s[|s| - 1])
  }

  /** `%d` of a non-negative number: its decimal digits, no leading zero. */
  function Decimal(n: nat): (s: string)
    ensures AllDigits(s) && DecimalValue(s) == n
    ensures 1 <= |s|
    ensures n >= 10 ==> |s| >= 2
    ensures n >= 100 ==> |s| >= 3
    decreases n
  {
    if n < 10 then [DigitChar(n)]
    else
      var s := Decimal(n / 10) + [DigitChar(n % 10)];
      assert s[..|s| - 1] == Decimal(n / 10);
      s
  }

  /** `%d` prints no leading zero, so the length is fixed by the number: one
      digit below 10, two below 100, three below 1000. */
  lemma {:induction false} DecimalShape(n: nat)
    ensures |Decimal(n)| == 1 || Decimal(n)[0] != '0'
    ensures n < 10 <==> |Decimal(n)| == 1
    ensures n < 10 ==> Decimal(n) == [DigitChar(n)]
    ensures 10 <= n < 100 ==> |Decimal(n)| == 2
    ensures 100 <= n < 1000 ==> |Decimal(n)| == 3
    decreases n
  {
    if n >= 10 {
      DecimalShape(n / 10);
      assert Decimal(n)[0] == Decimal(n / 10)[0];
    }
  }

  /** `%02d`: the decimal digits, zero-padded on the left to at least two characters. */
  function Pad2(n: nat): (s: string)
    ensures AllDigits(s) && DecimalValue(s) == n
    ensures n < 100 ==> s == [DigitChar(n / 10), DigitChar(n % 10)]
    ensures n >= 100 ==> |s| >= 3
    ensures 100 <= n < 1000 ==> |s| == 3
  {
    DecimalShape(n);
    if n < 10 then
      var s := "0" + Decimal(n);
      assert s[..1] == "0";
      s
    else if n < 100 then
      assert Decimal(n / 10) == [DigitChar(n / 10)];
      Decimal(n)
    else Decimal(n)
  }

  /** UnicodeSPrint(FileName, 26, ...): a 26-byte buffer holds 12 CHAR16
      characters and the terminator, so longer output is cut to 12. */
  const NameCapacity := 12

  const FallbackName := "scrnshot.png"

  const Extension := ".png"

  function Truncate(s: string): (t: string)
    ensures |t| <= NameCapacity
    ensures |s| <= NameCapacity ==> t == s
    ensures |s| > NameCapacity ==> t == s[..NameCapacity]
  {
    if |s| <= NameCapacity then s else s[..NameCapacity]
  }

  /** Every field of a well-formed EFI_TIME fits in two digits. */
  predicate TwoDigitFields(t: Time) {
    t.day < 100 && t.hour < 100 && t.minute < 100 && t.second < 100
  }

  function TwoDigitValue(s: string): (n: nat)
    requires |s| == 2 && AllDigits(s)
    ensures n < 100
  {
    10 * DigitValue(s[0]) + DigitValue(s[1])
  }

  /** Reads a name of the form DDHHMMSS.png back into the time it encodes. */
  function ParseName(name: string): Option<Time> {
    if |name| == 12 && name[8..] == Extension && AllDigits(name[..8]) then
      Some(Time(TwoDigitValue(name[0..2]), TwoDigitValue(name[2..4]),
                TwoDigitValue(name[4..6]), TwoDigitValue(name[6..8])))
    else None
  }

  /** The eight digits `%02d%02d%02d%02d` print for a time, more when a field exceeds 99. */
  function TimeDigits(time: Time): (digits: string)
    ensures AllDigits(digits)
    ensures 8 <= |digits| <= 12
    ensures !TwoDigitFields(time) ==> |digits| >= 9
    ensures TwoDigitFields(time) ==>
              && |digits| == 8
              && digits[0..2] == Pad2(time.day)
              && digits[2..4] == Pad2(time.hour)
              && digits[4..6] == Pad2(time.minute)
              && digits[6..8] == Pad2(time.second)
  {
    var day, hour, minute, second := Pad2(time.day), Pad2(time.hour), Pad2(time.minute), Pad2(time.second);
    FourFields(day, hour, minute, second);
    day + hour + minute + second
  }

  /** Four digit strings side by side; two-character ones sit at 0, 2, 4 and 6. */
  lemma FourFields(a: string, b: string, c: string, d: string)
    requires AllDigits(a) && AllDigits(b) && AllDigits(c) && AllDigits(d)
    ensures AllDigits(a + b + c + d)
    ensures |a| == |b| == |c| == |d| == 2 ==>
              var s := a + b + c + d;
              s[0..2] == a && s[2..4] == b && s[4..6] == c && s[6..8] == d
  {
  }

  /** The name of the file a capture writes, given the status and value GetTime returned. */
  function ScreenshotName(timeStatus: Status, time: Time): (name: string)
    ensures |name| <= NameCapacity
    ensures timeStatus.IsError() ==> name == FallbackName
    ensures !timeStatus.IsError() ==> name == Truncate(TimeDigits(time) + Extension)
    ensures !timeStatus.IsError() && TwoDigitFields(time) ==>
              && |name| == 12
              && name[8..] == Extension
              && ParseName(name) == Some(time)
  {
    if timeStatus.IsError() then FallbackName
    else
      var digits := TimeDigits(time);
      if TwoDigitFields(time) then
        ParsesBack(time, digits);
        digits + Extension
      else Truncate(digits + Extension)
  }

  /** Eight digits of a well-formed time, followed by the extension, read back as that time. */
  lemma ParsesBack(time: Time, digits: string)
    requires TwoDigitFields(time) && digits == TimeDigits(time)
    ensures |digits + Extension| == 12 && (digits + Extension)[8..] == Extension
    ensures ParseName(digits + Extension) == Some(time)
  {
    var name := digits + Extension;
    assert name[..8] == digits;
    assert name[8..] == Extension;
  }

  /** A clock-derived name starts with a digit, so it never collides with the fallback name. */
  lemma ClockNameIsNotFallback(timeStatus: Status, time: Time)
    requires !timeStatus.IsError()
    ensures |ScreenshotName(timeStatus, time)| > 0 && IsDigit(ScreenshotName(timeStatus, time)[0])
    ensures ScreenshotName(timeStatus, time) != FallbackName
  {
    var digits := TimeDigits(time);
    var name := ScreenshotName(timeStatus, time);
    assert name == Truncate(digits + Extension);
    assert name[0] == digits[0];
    assert IsDigit(name[0]);
    assert !IsDigit(FallbackName[0]);
  }

  /** A field of three digits (possible for a UINT8 the firmware fills in)
      pushes the extension past the buffer: the name keeps 12 characters and
      no longer ends in `.png`. */
  lemma WideFieldLosesExtension(timeStatus: Status, time: Time)
    requires !timeStatus.IsError()
    requires !TwoDigitFields(time)
    ensures |ScreenshotName(timeStatus, time)| == NameCapacity
    ensures ScreenshotName(timeStatus, time)[8..] != Extension
  {
    var digits := TimeDigits(time);
    var name := ScreenshotName(timeStatus, time);
    assert name == (digits + Extension)[..NameCapacity];
    assert name[8] == digits[8];
    assert IsDigit(name[8]);
    assert name[8..][0] == name[8];
  }
}
