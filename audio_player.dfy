/**
 * `formatTime` of the audio player (components/AudioPlayer.tsx): a number of seconds as `MM:SS`, each
 * field the decimal numeral left-padded with `0` to two characters. The player itself (wavesurfer) is
 * not modelled; times are whole seconds.
 */
module AudioPlayer {

  function DigitChar(d: nat): char
    requires d < 10
  {
    "0123456789"[d]
  }

  function DigitValue(c: char): nat {
    if '0' <= c <= '9' then (c as int - '0' as int) as nat else 0
  }

  predicate IsDigit(c: char) {
    '0' <= c <= '9'
  }

  predicate AllDigits(s: string) {
    forall k :: 0 <= k < |s| ==> IsDigit(s[k])
  }

  /** `n.toString()`: the decimal numeral, without leading zeros. */
  function Digits(n: nat): (r: string)
    ensures |r| >= 1 && AllDigits(r)
    ensures n >= 10 ==> |r| >= 2
    ensures n >= 100 ==> |r| >= 3
    decreases n
  {
    if n < 10 then [DigitChar(n)] else Digits(n / 10) + [DigitChar(n % 10)]
  }

  /** The number a string of digits denotes. */
  function Value(s: string): nat {
    if s == [] then 0 else Value(s[..|s| - 1]) * 10 + DigitValue(s[|s| - 1])
  }

  lemma DigitRoundTrip(d: nat)
    requires d < 10
    ensures DigitValue(DigitChar(d)) == d
  {
  }

  /** Reading back the numeral gives the number. */
  lemma {:induction false} ValueOfDigits(n: nat)
    ensures Value(Digits(n)) == n
    decreases n
  {
    DigitRoundTrip(n % 10);
    if n >= 10 {
      ValueOfDigits(n / 10);
      var r := Digits(n);
      assert r[..|r| - 1] == Digits(n / 10);
    }
  }

  /** `s.padStart(width, pad)`: `pad` repeated in front of `s` up to `width` characters. */
  function PadStart(s: string, width: nat, pad: char): (r: string)
    ensures |r| == if |s| >= width then |s| else width
    ensures r[|r| - |s|..] == s
    ensures forall k :: 0 <= k < |r| - |s| ==> r[k] == pad
  {
    if |s| >= width then s else seq(width - |s|, _ => pad) + s
  }

  /** Leading zeros do not change the value. */
  lemma {:induction false} ValueSkipsZeros(z: nat, s: string)
    ensures Value(seq(z, _ => '0') + s) == Value(s)
    decreases |s|
  {
    var p := seq(z, _ => '0');
    if s == [] {
      assert p + s == p;
      ValueOfZeros(z);
    } else {
      var n := |s| - 1;
      assert (p + s)[..|p + s| - 1] == p + s[..n];
      ValueSkipsZeros(z, s[..n]);
    }
  }

  lemma {:induction false} ValueOfZeros(z: nat)
    ensures Value(seq(z, _ => '0')) == 0
  {
    if z > 0 {
      var p := seq(z, _ => '0');
      assert p[..z - 1] == seq(z - 1, _ => '0');
      ValueOfZeros(z - 1);
    }
  }

  lemma ValueOfPadded(s: string, width: nat)
    ensures Value(PadStart(s, width, '0')) == Value(s)
  {
    if |s| < width { ValueSkipsZeros(width - |s|, s); }
  }

  function MinutesField(timeInSeconds: nat): string {
    PadStart(Digits(timeInSeconds / 60), 2, '0')
  }

  function SecondsField(timeInSeconds: nat): string {
    PadStart(Digits(timeInSeconds % 60), 2, '0')
  }

  /** `formatTime`. */
  function FormatTime(timeInSeconds: nat): string {
    MinutesField(timeInSeconds) + ":" + SecondsField(timeInSeconds)
  }

  /** The seconds field has exactly two digits, the first at most `5`; the minutes are not capped. */
  lemma FormatTimeFields(t: nat)
    ensures |SecondsField(t)| == 2 && AllDigits(SecondsField(t)) && SecondsField(t)[0] <= '5'
    ensures |MinutesField(t)| >= 2 && AllDigits(MinutesField(t))
    ensures t >= 6000 ==> |MinutesField(t)| >= 3
    ensures Value(MinutesField(t)) == t / 60 && Value(SecondsField(t)) == t % 60
  {
    ValueOfDigits(t / 60);
    ValueOfDigits(t % 60);
    ValueOfPadded(Digits(t / 60), 2);
    ValueOfPadded(Digits(t % 60), 2);
    TwoDigitValue(SecondsField(t));
  }

  lemma TwoDigitValue(s: string)
    requires |s| == 2
    ensures Value(s) == DigitValue(s[0]) * 10 + DigitValue(s[1])
  {
    var h := s[..1];
    assert h[..0] == [] && h[0] == s[0];
    assert Value(h) == DigitValue(s[0]);
    assert s[..|s| - 1] == h;
  }

  /** Reads an `MM:SS` string back: everything before the last three characters are the minutes. */
  function ReadTime(r: string): nat {
    if |r| < 3 then 0 else Value(r[..|r| - 3]) * 60 + Value(r[|r| - 2..])
  }

  /** Reading back a formatted time gives the time. */
  lemma ReadFormatTime(t: nat)
    ensures ReadTime(FormatTime(t)) == t
  {
    FormatTimeFields(t);
    ReadJoined(MinutesField(t), SecondsField(t));
  }

  lemma ReadJoined(m: string, s: string)
    requires |s| == 2
    ensures ReadTime(m + ":" + s) == Value(m) * 60 + Value(s)
  {
    var r := m + ":" + s;
    assert r[..|r| - 3] == m;
    assert r[|r| - 2..] == s;
  }

  /** `useState("00:00")` for the current and the total time: the format of zero seconds. */
  const InitialTime := "00:00"

  lemma InitialIsZero()
    ensures FormatTime(0) == InitialTime
    ensures ReadTime(InitialTime) == 0
  {
    assert Digits(0) == "0";
    assert PadStart("0", 2, '0') == "00";
    ReadFormatTime(0);
  }
}
