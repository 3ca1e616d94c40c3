/**
 * The text `setHours` writes into the bound input (timepicker.js): empty
 * while either selector shows its blank sentinel, otherwise the hour and the
 * minute, each padded to two digits, joined by a colon.
 */
module TimeFormat {
  import opened Optional
  import opened Decimal

  /**
   * `hour == "" || minute == "" ? "" : pad(hour) + ":" + pad(minute)`, the
   * selector values being `None` for the blank sentinel.
   */
  function FormatTime(hour: Option<nat>, minute: Option<nat>): (t: string)
    ensures t == "" <==> hour.None? || minute.None?
    ensures hour.Some? && minute.Some? && hour.value < 100 && minute.value < 100 ==>
              && |t| == 5
              && t[2] == ':'
              && IsDigits(t[..2]) && ReadDigits(t[..2]) == hour.value
              && IsDigits(t[3..]) && ReadDigits(t[3..]) == minute.value
  {
    if hour.None? || minute.None? then ""
    else
      Pad2Facts(hour.value);
      Pad2Facts(minute.value);
      var t := Pad2(hour.value) + ":" + Pad2(minute.value);
      assert t[..|Pad2(hour.value)|] == Pad2(hour.value);
      assert t[|Pad2(hour.value)| + 1..] == Pad2(minute.value);
      t
  }

  /** Reads `HH:MM` back into an hour and a minute; anything else reads as nothing. */
  function ReadTime(t: string): Option<(nat, nat)> {
    if |t| == 5 && t[2] == ':' && IsDigits(t[..2]) && IsDigits(t[3..])
    then Some((ReadDigits(t[..2]), ReadDigits(t[3..])))
    else None
  }

  /** The formatted time reads back as the selected hour and minute, and the empty text as nothing. */
  lemma FormatReadRoundTrip(hour: Option<nat>, minute: Option<nat>)
    requires hour.Some? ==> hour.value < 100
    requires minute.Some? ==> minute.value < 100
    ensures ReadTime(FormatTime(hour, minute))
         == if hour.Some? && minute.Some? then Some((hour.value, minute.value)) else None
  {
  }

  /** Distinct selections never produce the same non-empty text. */
  lemma FormatInjective(h1: nat, m1: nat, h2: nat, m2: nat)
    requires h1 < 100 && m1 < 100 && h2 < 100 && m2 < 100
    requires FormatTime(Some(h1), Some(m1)) == FormatTime(Some(h2), Some(m2))
    ensures h1 == h2 && m1 == m2
  {
    FormatReadRoundTrip(Some(h1), Some(m1));
    FormatReadRoundTrip(Some(h2), Some(m2));
  }
}
