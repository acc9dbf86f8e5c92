/**
 * Placement of a meeting on the day grid (`calculateMeetingGridProps` in
 * src/components/meeting/Meeting.tsx). A meeting occupies the 1-based CSS
 * grid rows [gridRowStart, gridRowEnd): the start is rounded down and the
 * end rounded up, in units of INTERVAL_MINUTES measured from START_HOUR.
 *
 * The source converts hours to minutes with a factor of 30, not 60. The
 * model keeps that factor (`CalculateMeetingGridProps`); the definition with
 * 60 minutes to the hour (`IntendedGridProps`) stands beside it, together
 * with the properties that only it has.
 */
module MeetingGrid {
  import opened Types

  /** START_HOUR and INTERVAL_MINUTES of the calendar. */
  datatype GridConfig = GridConfig(startHour: int, intervalMinutes: int)

  /** The hour-to-minutes factor the source uses. */
  const MinutesPerHourAsWritten := 30

  /** The number of minutes in an hour. */
  const MinutesPerHour := 60

  /** The row range a meeting occupies. */
  datatype GridProps = GridProps(gridRowStart: int, gridRowEnd: int)

  /** `Math.floor(x / k)`: the greatest q with k * q <= x. */
  function FloorDiv(x: int, k: int): (q: int)
    requires k > 0
    ensures k * q <= x < k * q + k
  {
    x / k
  }

  /** `Math.ceil(x / k)`: the least q with x <= k * q. */
  function CeilDiv(x: int, k: int): (q: int)
    requires k > 0
    ensures k * q - k < x <= k * q
  {
    -((-x) / k)
  }

  /** Minutes from the top of `startHour` to the clock time of `t`, counting `perHour` minutes to an hour. */
  function MinutesFrom(startHour: int, perHour: int, t: Timestamp): (total: int)
  {
    (t.hour - startHour) * perHour + t.minute
  }

  /** `totalMinutesFromStart` / `totalMinutesToEnd`, with the source's factor of 30. */
  function TotalMinutes(cfg: GridConfig, t: Timestamp): (total: int)
  {
    MinutesFrom(cfg.startHour, MinutesPerHourAsWritten, t)
  }

  /** The grid row at which a boundary that is `total` minutes in starts (rounded down). */
  function StartRow(total: int, k: int): (row: int)
    requires k > 0
    ensures k * (row - 1) <= total < k * row
  {
    FloorDiv(total, k) + 1
  }

  /** The grid row at which a boundary that is `total` minutes in ends (rounded up). */
  function EndRow(total: int, k: int): (row: int)
    requires k > 0
    ensures k * (row - 2) < total <= k * (row - 1)
  {
    CeilDiv(total, k) + 1
  }

  /**
   * `calculateMeetingGridProps` as written: only the hour and minute of the
   * start and end are used, with 30 minutes to the hour and no clamping.
   */
  function CalculateMeetingGridProps(meeting: MeetingData, cfg: GridConfig): (r: GridProps)
    requires cfg.intervalMinutes > 0
    ensures var s := (meeting.startTime.hour - cfg.startHour) * 30 + meeting.startTime.minute;
            cfg.intervalMinutes * (r.gridRowStart - 1) <= s < cfg.intervalMinutes * r.gridRowStart
    ensures var e := (meeting.endTime.hour - cfg.startHour) * 30 + meeting.endTime.minute;
            cfg.intervalMinutes * (r.gridRowEnd - 2) < e <= cfg.intervalMinutes * (r.gridRowEnd - 1)
  {
    GridProps(
      StartRow(TotalMinutes(cfg, meeting.startTime), cfg.intervalMinutes),
      EndRow(TotalMinutes(cfg, meeting.endTime), cfg.intervalMinutes))
  }

  // ---------------------------------------------------------------------
  // Rounding facts, over minute totals
  // ---------------------------------------------------------------------

  /** A row number is pinned down by the bounds in StartRow's contract. */
  lemma StartRowUnique(total: int, k: int, row: int)
    requires k > 0
    requires k * (row - 1) <= total < k * row
    ensures StartRow(total, k) == row
  {
    var q := StartRow(total, k);
    if q < row {
      MulMonotone(k, q, row - 1);
    } else if q > row {
      MulMonotone(k, row, q - 1);
    }
  }

  /** A row number is pinned down by the bounds in EndRow's contract. */
  lemma EndRowUnique(total: int, k: int, row: int)
    requires k > 0
    requires k * (row - 2) < total <= k * (row - 1)
    ensures EndRow(total, k) == row
  {
    var q := EndRow(total, k);
    if q < row {
      MulMonotone(k, q - 1, row - 2);
    } else if q > row {
      MulMonotone(k, row - 1, q - 2);
    }
  }

  lemma MulMonotone(k: int, a: int, b: int)
    requires k > 0 && a <= b
    ensures k * a <= k * b
  {
    assert k * b - k * a == k * (b - a);
  }

  /** A later start boundary never gets a smaller start row. */
  lemma StartRowMonotone(a: int, b: int, k: int)
    requires k > 0 && a <= b
    ensures StartRow(a, k) <= StartRow(b, k)
  {
    var ra, rb := StartRow(a, k), StartRow(b, k);
    if ra > rb {
      MulMonotone(k, rb, ra - 1);
    }
  }

  /** A later end boundary never gets a smaller end row. */
  lemma EndRowMonotone(a: int, b: int, k: int)
    requires k > 0 && a <= b
    ensures EndRow(a, k) <= EndRow(b, k)
  {
    var ra, rb := EndRow(a, k), EndRow(b, k);
    if ra > rb {
      MulMonotone(k, rb - 1, ra - 2);
    }
  }

  /** Rounding the start down and the end up keeps start <= end, and start < end for a positive length. */
  lemma RowsOrderedOnTotals(s: int, e: int, k: int)
    requires k > 0 && s <= e
    ensures StartRow(s, k) <= EndRow(e, k)
    ensures s < e ==> StartRow(s, k) < EndRow(e, k)
  {
    var rs, re := StartRow(s, k), EndRow(e, k);
    if rs >= re {
      MulMonotone(k, re - 1, rs - 1);
    }
  }

  /** On an exact multiple of the interval the floor and the ceiling agree. */
  lemma ExactMultipleOnTotals(total: int, k: int)
    requires k > 0 && total % k == 0
    ensures StartRow(total, k) == total / k + 1
    ensures EndRow(total, k) == total / k + 1
  {
    var q := total / k;
    assert total == k * q;
    StartRowUnique(total, k, q + 1);
    EndRowUnique(total, k, q + 1);
  }

  // ---------------------------------------------------------------------
  // Properties of calculateMeetingGridProps as written
  // ---------------------------------------------------------------------

  /** A meeting whose end total is not before its start total never gets an inverted row range. */
  lemma RowsOrdered(meeting: MeetingData, cfg: GridConfig)
    requires cfg.intervalMinutes > 0
    requires TotalMinutes(cfg, meeting.startTime) <= TotalMinutes(cfg, meeting.endTime)
    ensures CalculateMeetingGridProps(meeting, cfg).gridRowStart <= CalculateMeetingGridProps(meeting, cfg).gridRowEnd
  {
    RowsOrderedOnTotals(TotalMinutes(cfg, meeting.startTime), TotalMinutes(cfg, meeting.endTime), cfg.intervalMinutes);
  }

  /** A meeting of positive length (in the source's totals) spans at least one row. */
  lemma PositiveLengthSpansRow(meeting: MeetingData, cfg: GridConfig)
    requires cfg.intervalMinutes > 0
    requires TotalMinutes(cfg, meeting.startTime) < TotalMinutes(cfg, meeting.endTime)
    ensures CalculateMeetingGridProps(meeting, cfg).gridRowStart < CalculateMeetingGridProps(meeting, cfg).gridRowEnd
  {
    RowsOrderedOnTotals(TotalMinutes(cfg, meeting.startTime), TotalMinutes(cfg, meeting.endTime), cfg.intervalMinutes);
  }

  /** A boundary on an exact multiple of INTERVAL_MINUTES lands on row total / INTERVAL_MINUTES + 1, whether start or end. */
  lemma ExactMultipleRow(meeting: MeetingData, cfg: GridConfig)
    requires cfg.intervalMinutes > 0
    ensures var s := TotalMinutes(cfg, meeting.startTime);
            s % cfg.intervalMinutes == 0 ==>
              CalculateMeetingGridProps(meeting, cfg).gridRowStart == s / cfg.intervalMinutes + 1
              && EndRow(s, cfg.intervalMinutes) == s / cfg.intervalMinutes + 1
    ensures var e := TotalMinutes(cfg, meeting.endTime);
            e % cfg.intervalMinutes == 0 ==>
              CalculateMeetingGridProps(meeting, cfg).gridRowEnd == e / cfg.intervalMinutes + 1
              && StartRow(e, cfg.intervalMinutes) == e / cfg.intervalMinutes + 1
  {
    var s, e := TotalMinutes(cfg, meeting.startTime), TotalMinutes(cfg, meeting.endTime);
    if s % cfg.intervalMinutes == 0 {
      ExactMultipleOnTotals(s, cfg.intervalMinutes);
    }
    if e % cfg.intervalMinutes == 0 {
      ExactMultipleOnTotals(e, cfg.intervalMinutes);
    }
  }

  /**
   * There is no clamping: the start row is 0 or less exactly when the start
   * total is negative. For a genuine clock time that happens two or more
   * hours before START_HOUR at any minute, and in the hour just before it
   * only below minute 30: from minute 30 on, the factor of 30 lifts the
   * total to zero or above.
   */
  lemma NoClampBeforeStartHour(meeting: MeetingData, cfg: GridConfig)
    requires cfg.intervalMinutes > 0
    ensures TotalMinutes(cfg, meeting.startTime) < 0 <==> CalculateMeetingGridProps(meeting, cfg).gridRowStart <= 0
    ensures meeting.startTime.hour < cfg.startHour && meeting.startTime.minute < 30 ==>
              CalculateMeetingGridProps(meeting, cfg).gridRowStart <= 0
    ensures ValidClock(meeting.startTime) ==>
              (CalculateMeetingGridProps(meeting, cfg).gridRowStart <= 0 <==>
                 || meeting.startTime.hour < cfg.startHour - 1
                 || (meeting.startTime.hour == cfg.startHour - 1 && meeting.startTime.minute < 30))
  {
    var h, m := meeting.startTime.hour, meeting.startTime.minute;
    var s := TotalMinutes(cfg, meeting.startTime);
    var r := CalculateMeetingGridProps(meeting, cfg).gridRowStart;
    if r > 0 {
      MulMonotone(cfg.intervalMinutes, 0, r - 1);
    } else {
      MulMonotone(cfg.intervalMinutes, r, 0);
    }
    if h < cfg.startHour - 1 {
      MulMonotone(30, h - cfg.startHour, -2);
    } else if h >= cfg.startHour {
      MulMonotone(30, 0, h - cfg.startHour);
    }
  }

  /**
   * There is no clamping above either: every row number, however large, is
   * the start row of a genuine clock time, on a grid with INTERVAL_MINUTES 1
   * and a START_HOUR at or before midnight (negative above row 30).
   */
  lemma NoClampAfterLastRow(row: int)
    requires row >= 1
    ensures var cfg := GridConfig(-((row - 1) / 30), 1);
            var t := Timestamp(0, 0, (row - 1) % 30);
            && ValidClock(t)
            && StartRow(TotalMinutes(cfg, t), cfg.intervalMinutes) == row
  {
    var cfg := GridConfig(-((row - 1) / 30), 1);
    var t := Timestamp(0, 0, (row - 1) % 30);
    assert TotalMinutes(cfg, t) == ((row - 1) / 30) * 30 + (row - 1) % 30 == row - 1;
    StartRowUnique(row - 1, 1, row);
  }

  /** A start (or end) whose total is larger never gets a smaller row. */
  lemma RowsMonotone(m1: MeetingData, m2: MeetingData, cfg: GridConfig)
    requires cfg.intervalMinutes > 0
    ensures TotalMinutes(cfg, m1.startTime) <= TotalMinutes(cfg, m2.startTime) ==>
              CalculateMeetingGridProps(m1, cfg).gridRowStart <= CalculateMeetingGridProps(m2, cfg).gridRowStart
    ensures TotalMinutes(cfg, m1.endTime) <= TotalMinutes(cfg, m2.endTime) ==>
              CalculateMeetingGridProps(m1, cfg).gridRowEnd <= CalculateMeetingGridProps(m2, cfg).gridRowEnd
  {
    var k := cfg.intervalMinutes;
    if TotalMinutes(cfg, m1.startTime) <= TotalMinutes(cfg, m2.startTime) {
      StartRowMonotone(TotalMinutes(cfg, m1.startTime), TotalMinutes(cfg, m2.startTime), k);
    }
    if TotalMinutes(cfg, m1.endTime) <= TotalMinutes(cfg, m2.endTime) {
      EndRowMonotone(TotalMinutes(cfg, m1.endTime), TotalMinutes(cfg, m2.endTime), k);
    }
  }

  /** Only the hour and minute of each boundary matter: the day, the id, the title and the attendees do not. */
  lemma OnlyClockTimeMatters(m1: MeetingData, m2: MeetingData, cfg: GridConfig)
    requires cfg.intervalMinutes > 0
    requires m1.startTime.hour == m2.startTime.hour && m1.startTime.minute == m2.startTime.minute
    requires m1.endTime.hour == m2.endTime.hour && m1.endTime.minute == m2.endTime.minute
    ensures CalculateMeetingGridProps(m1, cfg) == CalculateMeetingGridProps(m2, cfg)
  {
  }

  // ---------------------------------------------------------------------
  // The factor of 30: what it does, and the definition with 60
  // ---------------------------------------------------------------------

  /** The meeting of the examples below, on day 0 and with no attendees. */
  function SampleMeeting(startHour: int, startMinute: int, endHour: int, endMinute: int): (m: MeetingData)
  {
    MeetingData(1, "", "", Timestamp(0, startHour, startMinute), Timestamp(0, endHour, endMinute), [])
  }

  /**
   * As written, with START_HOUR 8 and INTERVAL_MINUTES 30: 10:00 to 11:00
   * is placed on rows [3, 4), not [5, 7); a meeting ending at 9:00 ends on an
   * earlier row than one ending at 8:59; and 8:45 to 9:00 spans no row at all.
   * With INTERVAL_MINUTES 15, 8:59 to 9:00 gets an inverted range [4, 3).
   * A start at 7:45 lands on row 1, inside the grid, as if it were 8:15.
   * The latest start of the day, 23:59, lands on row 17: late meetings are
   * squeezed into the grid rather than pushed past its end.
   */
  lemma AsWrittenClockTimeAnomalies()
    ensures CalculateMeetingGridProps(SampleMeeting(10, 0, 11, 0), GridConfig(8, 30)) == GridProps(3, 4)
    ensures CalculateMeetingGridProps(SampleMeeting(8, 0, 8, 59), GridConfig(8, 30)).gridRowEnd == 3
    ensures CalculateMeetingGridProps(SampleMeeting(8, 0, 9, 0), GridConfig(8, 30)).gridRowEnd == 2
    ensures CalculateMeetingGridProps(SampleMeeting(8, 45, 9, 0), GridConfig(8, 30)) == GridProps(2, 2)
    ensures CalculateMeetingGridProps(SampleMeeting(8, 59, 9, 0), GridConfig(8, 15)) == GridProps(4, 3)
    ensures CalculateMeetingGridProps(SampleMeeting(7, 45, 9, 0), GridConfig(8, 30)).gridRowStart == 1
    ensures CalculateMeetingGridProps(SampleMeeting(23, 59, 23, 59), GridConfig(8, 30)).gridRowStart == 17
  {
    ExactMultipleOnTotals(60, 30);
    ExactMultipleOnTotals(90, 30);
    StartRowUnique(45, 30, 2);
    EndRowUnique(59, 30, 3);
    ExactMultipleOnTotals(30, 30);
    StartRowUnique(59, 15, 4);
    EndRowUnique(30, 15, 3);
    StartRowUnique(15, 30, 1);
    StartRowUnique(509, 30, 17);
  }

  /** Minutes since midnight of the clock time of `t`. */
  function ClockMinutes(t: Timestamp): (minutes: int)
  {
    t.hour * MinutesPerHour + t.minute
  }

  /** The grid rows computed with 60 minutes to the hour. */
  function IntendedGridProps(meeting: MeetingData, cfg: GridConfig): (r: GridProps)
    requires cfg.intervalMinutes > 0
    ensures var s := ClockMinutes(meeting.startTime) - cfg.startHour * 60;
            cfg.intervalMinutes * (r.gridRowStart - 1) <= s < cfg.intervalMinutes * r.gridRowStart
    ensures var e := ClockMinutes(meeting.endTime) - cfg.startHour * 60;
            cfg.intervalMinutes * (r.gridRowEnd - 2) < e <= cfg.intervalMinutes * (r.gridRowEnd - 1)
  {
    GridProps(
      StartRow(MinutesFrom(cfg.startHour, MinutesPerHour, meeting.startTime), cfg.intervalMinutes),
      EndRow(MinutesFrom(cfg.startHour, MinutesPerHour, meeting.endTime), cfg.intervalMinutes))
  }

  /**
   * With 60 minutes to the hour, rows follow the clock: a later start or end
   * time never gets a smaller row, and a meeting whose end is after its start
   * (on the clock) spans at least one row.
   */
  lemma IntendedFollowsClock(m1: MeetingData, m2: MeetingData, cfg: GridConfig)
    requires cfg.intervalMinutes > 0
    ensures ClockMinutes(m1.startTime) <= ClockMinutes(m2.startTime) ==>
              IntendedGridProps(m1, cfg).gridRowStart <= IntendedGridProps(m2, cfg).gridRowStart
    ensures ClockMinutes(m1.endTime) <= ClockMinutes(m2.endTime) ==>
              IntendedGridProps(m1, cfg).gridRowEnd <= IntendedGridProps(m2, cfg).gridRowEnd
    ensures ClockMinutes(m1.startTime) < ClockMinutes(m1.endTime) ==>
              IntendedGridProps(m1, cfg).gridRowStart < IntendedGridProps(m1, cfg).gridRowEnd
  {
    var k := cfg.intervalMinutes;
    var s1 := MinutesFrom(cfg.startHour, MinutesPerHour, m1.startTime);
    var s2 := MinutesFrom(cfg.startHour, MinutesPerHour, m2.startTime);
    var e1 := MinutesFrom(cfg.startHour, MinutesPerHour, m1.endTime);
    var e2 := MinutesFrom(cfg.startHour, MinutesPerHour, m2.endTime);
    if s1 <= s2 {
      StartRowMonotone(s1, s2, k);
    }
    if e1 <= e2 {
      EndRowMonotone(e1, e2, k);
    }
    if s1 < e1 {
      RowsOrderedOnTotals(s1, e1, k);
    }
  }

  /** With 60 minutes to the hour, 10:00 to 11:00 on an 8 o'clock, 30-minute grid takes rows [5, 7). */
  lemma IntendedTenToEleven()
    ensures IntendedGridProps(SampleMeeting(10, 0, 11, 0), GridConfig(8, 30)) == GridProps(5, 7)
  {
    ExactMultipleOnTotals(120, 30);
    ExactMultipleOnTotals(180, 30);
  }
}
