/**
 * Timestamps format_timestamp writes for particular inputs. Each instance is
 * derived from the general lemmas: the text of the clock reading, then the
 * reading of the input.
 */
module SrtExamples {
  import opened Decimal
  import opened Subtitles

  lemma SmallPads()
    ensures PadInt(0, 2) == "00" && PadInt(0, 3) == "000" && PadInt(1, 2) == "01"
  {
    assert DigitChar(0) == '0' && DigitChar(1) == '1';
    assert Digits(0) == "0" && Digits(1) == "1";
    assert Zeros(1) == "0" && Zeros(2) == "00";
  }

  lemma ZeroText()
    ensures RenderClock(Clock(0, 0, 0, 0)) == "00:00:00,000"
  {
    SmallPads();
  }

  lemma FifteenHundredText()
    ensures RenderClock(Clock(0, 0, 1, 500)) == "00:00:01,500"
  {
    SmallPads();
    assert DigitChar(5) == '5' && Digits(5) == "5" && Digits(50) == "50" && Digits(500) == "500";
  }

  lemma HourMinuteSecondText()
    ensures RenderClock(Clock(1, 1, 1, 0)) == "01:01:01,000"
  {
    SmallPads();
  }

  lemma TwentyFiveHoursText()
    ensures RenderClock(Clock(25, 0, 0, 0)) == "25:00:00,000"
  {
    SmallPads();
    assert DigitChar(2) == '2' && DigitChar(5) == '5' && Digits(2) == "2" && Digits(25) == "25";
  }

  /** Zero is written with every field padded: 00:00:00,000. */
  lemma ZeroTimestamp(ms: real)
    requires ms == 0.0
    ensures FormatTimestamp(ms) == "00:00:00,000"
  {
    assert ms.Floor == 0;
    TimestampOfClock(ms, Clock(0, 0, 0, 0));
    ZeroText();
  }

  /** 1500 ms is written 00:00:01,500. */
  lemma OneAndAHalfSeconds(ms: real)
    requires ms == 1500.0
    ensures FormatTimestamp(ms) == "00:00:01,500"
  {
    assert ms.Floor == 1500;
    TimestampOfClock(ms, Clock(0, 0, 1, 500));
    FifteenHundredText();
  }

  /** 3661000 ms is one hour, one minute and one second: 01:01:01,000. */
  lemma HourMinuteSecond(ms: real)
    requires ms == 3661000.0
    ensures FormatTimestamp(ms) == "01:01:01,000"
  {
    assert ms.Floor == 3661000;
    TimestampOfClock(ms, Clock(1, 1, 1, 0));
    HourMinuteSecondText();
  }

  /** Hours are not wrapped at a day: 90000000 ms is written 25:00:00,000. */
  lemma TwentyFiveHours(ms: real)
    requires ms == 90000000.0
    ensures FormatTimestamp(ms) == "25:00:00,000"
  {
    assert ms.Floor == 90000000;
    TimestampOfClock(ms, Clock(25, 0, 0, 0));
    TwentyFiveHoursText();
  }
}
