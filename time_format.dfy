/** The MM:SS labels of `convert_timeus_to_datetime_and_format`: the inner
    `format_time` applied to microseconds divided by one million. Arithmetic
    is over exact reals. */
module TimeFormat {
  import opened Text

  const MicrosPerSecond: real := 1000000.0

  /** `int(sec // 60)` with `sec = timeus / 1_000_000`; Python's `//` floors. */
  function Minutes(timeus: real): int
  {
    (timeus / MicrosPerSecond / 60.0).Floor
  }

  /** `int(sec % 60)`: Python's `%` with a positive divisor is never negative,
      so the truncating `int` is a floor here. */
  function SecondsRemainder(timeus: real): (s: int)
    ensures 0 <= s < 60
  {
    var sec := timeus / MicrosPerSecond;
    (sec - 60.0 * (sec / 60.0).Floor as real).Floor
  }

  /** `f"{n:02d}"` for a non-negative `n`: at least two digits, zero-padded. */
  function Pad2(n: nat): (r: string)
    ensures |r| >= 2 && (n < 100 ==> |r| == 2)
    ensures forall i :: 0 <= i < |r| ==> IsDigit(r[i])
  {
    if n < 10 then ['0', DigitChar(n)]
    else
      assert n < 100 ==> NatToString(n) == [DigitChar(n / 10)] + [DigitChar(n % 10)];
      NatToString(n)
  }

  /** `format_time(timeus / 1_000_000)`. */
  function FormatTime(timeus: real): string
  {
    IntToString(Minutes(timeus)) + ":" + Pad2(SecondsRemainder(timeus))
  }

  /** The padded seconds read back to the number they show. */
  lemma Pad2RoundTrip(n: nat)
    ensures ParseDigits(Pad2(n)) == n
  {
    if n < 10 {
      var r := Pad2(n);
      assert r[..1] == "0" && r[..1][..0] == [];
      assert ParseDigits(r[..1]) == 0;
    } else {
      ParseNatToString(n);
    }
  }

  /** The minutes and the seconds shown together make up the elapsed whole
      seconds, for every input including negative ones. */
  lemma FormatTimeWholeSeconds(timeus: real)
    ensures Minutes(timeus) * 60 + SecondsRemainder(timeus) == (timeus / MicrosPerSecond).Floor
  {
    var sec := timeus / MicrosPerSecond;
    var f := (sec / 60.0).Floor;
    assert Minutes(timeus) == f;
    var m := sec - 60.0 * f as real;
    var w := (sec).Floor;
    assert (w - 60 * f) as real <= m < (w - 60 * f) as real + 1.0;
  }

  /** On whole microseconds the label is integer arithmetic: minutes are
      `t / 60 000 000` and seconds `(t / 1 000 000) % 60`, floored for
      negative `t` as Python does. */
  lemma FormatTimeOfMicroseconds(t: int)
    ensures Minutes(t as real) == t / 60000000
    ensures SecondsRemainder(t as real) == (t / 1000000) % 60
  {
    var q, r := t / 60000000, t % 60000000;
    assert t == 60000000 * q + r && 0 <= r < 60000000;
    var sec := t as real / MicrosPerSecond;
    assert sec / 60.0 == q as real + r as real / 60000000.0;
    assert (sec / 60.0).Floor == q;
    var a, b := r / 1000000, r % 1000000;
    assert r == 1000000 * a + b && 0 <= b < 1000000 && 0 <= a < 60;
    assert sec - 60.0 * q as real == a as real + b as real / 1000000.0;
    assert SecondsRemainder(t as real) == a;
    assert t == 1000000 * (60 * q + a) + b;
    assert t / 1000000 == 60 * q + a;
  }

  /** The label splits at its colon into a signed minute count and the padded
      seconds, and both read back to the values they show. */
  lemma ParseFormattedTime(timeus: real)
    ensures var minutes := IntToString(Minutes(timeus));
      var r := FormatTime(timeus);
      && |r| == |minutes| + 3
      && r[|minutes|] == ':'
      && ParseInt(r[..|minutes|]) == Minutes(timeus)
      && ParseDigits(r[|minutes| + 1..]) == SecondsRemainder(timeus)
  {
    var minutes := IntToString(Minutes(timeus));
    var r := FormatTime(timeus);
    assert r[..|minutes|] == minutes;
    assert r[|minutes| + 1..] == Pad2(SecondsRemainder(timeus));
    ParseIntToString(Minutes(timeus));
    Pad2RoundTrip(SecondsRemainder(timeus));
  }

  /** Two minutes five seconds, under a minute, and one hour shown as sixty
      minutes: there is no hour field. */
  lemma FormatTimeExamples()
    ensures FormatTime(125000000.0) == "2:05"
    ensures FormatTime(59000000.0) == "0:59"
    ensures FormatTime(3600000000.0) == "60:00"
  {
    FormatTimeOfMicroseconds(125000000);
    FormatTimeOfMicroseconds(59000000);
    FormatTimeOfMicroseconds(3600000000);
    assert NatToString(59) == "59";
    assert NatToString(60) == "60";
  }
}
