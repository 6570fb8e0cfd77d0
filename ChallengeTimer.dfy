/**
 * The time-progress block drawn on every challenge card: from the current
 * time and a challenge's start and expiration it derives the label shown in
 * the card header and the 0-100 percent of the progress bar. Timestamps are
 * whole milliseconds; the label is kept as data (its prefix and its days,
 * hours and minutes) rather than as formatted text.
 */
module ChallengeTimer {
  import opened Wrappers

  const MsPerMinute: int := 1000 * 60
  const MsPerHour: int := 1000 * 60 * 60
  const MsPerDay: int := 1000 * 60 * 60 * 24

  /** The `${days}d ${hours}h ${mins}m` part of a label. */
  datatype Countdown = Countdown(days: int, hours: int, mins: int)

  /** The four labels a card can show; each names a phase of the challenge. */
  datatype TimeLabel =
    | NoExpiration              // 'No expiration': a date is missing
    | StartsIn(until: Countdown) // 'Starts in: …': the challenge has not started
    | TimeLeft(left: Countdown)  // 'Time left: …': the challenge is running
    | ChallengeExpired          // 'Challenge expired'

  datatype Progress = Progress(percent: int, timeLabel: TimeLabel)

  /** The milliseconds a countdown stands for. */
  function Millis(c: Countdown): int {
    c.days * MsPerDay + c.hours * MsPerHour + c.mins * MsPerMinute
  }

  /** Euclidean division is determined by its quotient-remainder equation. */
  lemma DivModUnique(a: int, b: int, q: int, r: int)
    requires b > 0 && 0 <= r < b && a == q * b + r
    ensures a / b == q && a % b == r
  {
    var q', r' := a / b, a % b;
    assert a == q' * b + r';
    assert (q - q') * b == r' - r;
    if q > q' {
      MulAtLeast(q - q', b);
    } else if q < q' {
      MulAtLeast(q' - q, b);
    }
  }

  lemma MulAtLeast(k: int, b: int)
    requires k >= 1 && b > 0
    ensures k * b >= b
  {
    assert k * b == (k - 1) * b + b;
    assert (k - 1) * b >= 0;
  }

  /** The floors of the countdown labels on a positive gap: whole
      days, the hours left over, then the minutes left over. For a
      non-negative real x, floor(x % n) is floor(x) % n, so integer division
      and remainder give the same values. */
  function Breakdown(ms: int): (c: Countdown)
    requires ms > 0
    ensures c.days >= 0 && 0 <= c.hours < 24 && 0 <= c.mins < 60
    ensures Millis(c) <= ms < Millis(c) + MsPerMinute
  {
    var c := Countdown(ms / MsPerDay, (ms / MsPerHour) % 24, (ms / MsPerMinute) % 60);
    BreakdownIsFloorDecomposition(ms, c);
    c
  }

  lemma BreakdownIsFloorDecomposition(ms: int, c: Countdown)
    requires ms > 0
    requires c == Countdown(ms / MsPerDay, (ms / MsPerHour) % 24, (ms / MsPerMinute) % 60)
    ensures c.days >= 0 && 0 <= c.hours < 24 && 0 <= c.mins < 60
    ensures Millis(c) <= ms < Millis(c) + MsPerMinute
  {
    var minutes, r0 := ms / MsPerMinute, ms % MsPerMinute;
    var hours := minutes / 60;
    assert minutes == hours * 60 + c.mins;
    DivModUnique(ms, MsPerHour, hours, c.mins * MsPerMinute + r0);
    var days := hours / 24;
    assert hours == days * 24 + c.hours;
    DivModUnique(ms, MsPerDay, days, c.hours * MsPerHour + c.mins * MsPerMinute + r0);
    assert ms == Millis(c) + r0;
  }

  /** The decomposition is the only one with hours < 24, minutes < 60 and a
      remainder under one minute. */
  lemma BreakdownUnique(ms: int, c: Countdown)
    requires ms > 0
    requires 0 <= c.hours < 24 && 0 <= c.mins < 60
    requires Millis(c) <= ms < Millis(c) + MsPerMinute
    ensures c == Breakdown(ms)
  {
    var r0 := ms - Millis(c);
    var minutes := c.days * 1440 + c.hours * 60 + c.mins;
    DivModUnique(ms, MsPerMinute, minutes, r0);
    DivModUnique(minutes, 60, c.days * 24 + c.hours, c.mins);
    DivModUnique(ms, MsPerHour, c.days * 24 + c.hours, c.mins * MsPerMinute + r0);
    DivModUnique(c.days * 24 + c.hours, 24, c.days, c.hours);
    DivModUnique(ms, MsPerDay, c.days, c.hours * MsPerHour + c.mins * MsPerMinute + r0);
  }

  /** `Math.round(elapsed / total * 100)` for total > 0 and elapsed >= 0:
      the integer nearest to 100·elapsed/total, halves rounded up. */
  function RoundPercent(elapsed: int, total: int): (r: int)
    requires total > 0 && elapsed >= 0
    ensures r >= 0
    ensures 2 * total * r - total <= 200 * elapsed < 2 * total * r + total
  {
    (200 * elapsed + total) / (2 * total)
  }

  /** `Math.max(0, Math.min(100, x))`. */
  function Clamp(x: int): (r: int)
    ensures 0 <= r <= 100
    ensures 0 <= x <= 100 ==> r == x
    ensures x < 0 ==> r == 0
    ensures x > 100 ==> r == 100
  {
    if x < 0 then 0 else if x > 100 then 100 else x
  }

  /** The progress block of a challenge card. A missing
      date gives 'No expiration'. Before the start the bar is empty and the
      label counts down to the start. Otherwise the source computes
      round(elapsed / total · 100) clamped to [0, 100], and overrides it with
      100 when no time is left; since msLeft > 0 forces total > 0, the
      division by a zero or negative total (NaN or ±Infinity in the browser)
      only ever occurs on that overriding path, and the model evaluates the
      percent only where it is shown. */
  function TimeProgress(now: int, start: Option<int>, expiration: Option<int>): (p: Progress)
    ensures 0 <= p.percent <= 100
  {
    if expiration.None? || start.None? then Progress(0, NoExpiration)
    else if now < start.value then Progress(0, StartsIn(Breakdown(start.value - now)))
    else
      var total := expiration.value - start.value;
      var elapsed := now - start.value;
      var msLeft := expiration.value - now;
      if msLeft > 0 then Progress(Clamp(RoundPercent(elapsed, total)), TimeLeft(Breakdown(msLeft)))
      else Progress(100, ChallengeExpired)
  }

  /** Which label is shown, in terms of the inputs alone, and the percent
      that goes with the three fixed labels. */
  lemma LabelByPhase(now: int, start: Option<int>, expiration: Option<int>)
    ensures var p := TimeProgress(now, start, expiration);
      && (p.timeLabel.NoExpiration? <==> start.None? || expiration.None?)
      && (p.timeLabel.StartsIn? <==> start.Some? && expiration.Some? && now < start.value)
      && (p.timeLabel.TimeLeft? <==> start.Some? && expiration.Some? && start.value <= now < expiration.value)
      && (p.timeLabel.ChallengeExpired? <==>
            start.Some? && expiration.Some? && now >= start.value && now >= expiration.value)
      && (p.timeLabel.NoExpiration? || p.timeLabel.StartsIn? ==> p.percent == 0)
      && (p.timeLabel.ChallengeExpired? ==> p.percent == 100)
  {
  }

  /** Before the start: an empty bar and the whole d/h/m gap to the start. */
  lemma CountdownToStart(now: int, start: int, expiration: int)
    requires now < start
    ensures var p := TimeProgress(now, Some(start), Some(expiration));
      && p.percent == 0
      && p.timeLabel.StartsIn?
      && Millis(p.timeLabel.until) <= start - now < Millis(p.timeLabel.until) + MsPerMinute
      && p.timeLabel.until.hours < 24 && p.timeLabel.until.mins < 60
  {
  }

  /** While running, the label counts down to the expiration by the same
      floor decomposition. */
  lemma CountdownToExpiration(now: int, start: int, expiration: int)
    requires start <= now < expiration
    ensures var p := TimeProgress(now, Some(start), Some(expiration));
      && p.timeLabel.TimeLeft?
      && Millis(p.timeLabel.left) <= expiration - now < Millis(p.timeLabel.left) + MsPerMinute
      && p.timeLabel.left.hours < 24 && p.timeLabel.left.mins < 60
  {
  }

  /** An inverted or empty window (expiration <= start) never shows a
      partial bar: it is empty before the start and full from it on. */
  lemma InvertedWindowPercent(now: int, start: int, expiration: int)
    requires expiration <= start
    ensures TimeProgress(now, Some(start), Some(expiration)).percent == if now < start then 0 else 100
  {
  }

  lemma DivMonotone(a: int, b: int, d: int)
    requires a <= b && d > 0
    ensures a / d <= b / d
  {
    var qa, qb := a / d, b / d;
    assert a == qa * d + a % d && b == qb * d + b % d;
    if qa > qb {
      MulAtLeast(qa - qb, d);
    }
  }

  /** For a proper window (start < expiration) the bar never goes back as
      time passes. */
  lemma PercentMonotone(now1: int, now2: int, start: int, expiration: int)
    requires start < expiration && now1 <= now2
    ensures TimeProgress(now1, Some(start), Some(expiration)).percent
         <= TimeProgress(now2, Some(start), Some(expiration)).percent
  {
    if start <= now1 && now2 < expiration {
      var total := expiration - start;
      DivMonotone(200 * (now1 - start) + total, 200 * (now2 - start) + total, 2 * total);
    }
  }

  /** For a proper window the bar is empty before the start, full at and
      after the expiration, and strictly between the two it is the rounded
      share of the window that has elapsed. */
  lemma PercentEndpoints(now: int, start: int, expiration: int)
    requires start < expiration
    ensures now < start ==> TimeProgress(now, Some(start), Some(expiration)).percent == 0
    ensures now >= expiration ==> TimeProgress(now, Some(start), Some(expiration)).percent == 100
    ensures start <= now < expiration ==>
      TimeProgress(now, Some(start), Some(expiration)).percent
        == RoundPercent(now - start, expiration - start)
  {
    if start <= now < expiration {
      RoundPercentBelowWhole(now - start, expiration - start);
    }
  }

  /** Less than the whole window rounds to at most 100. */
  lemma RoundPercentBelowWhole(elapsed: int, total: int)
    requires 0 <= elapsed < total
    ensures RoundPercent(elapsed, total) <= 100
  {
    var r := RoundPercent(elapsed, total);
    assert 2 * total * r == (r - 100) * (2 * total) + 200 * total;
    if r >= 101 {
      MulAtLeast(r - 100, 2 * total);
      assert false;
    }
  }

  /** One hour before a two-day challenge starts: an empty bar and
      'Starts in: 0d 1h 0m'. */
  lemma OneHourBeforeStart(t: int)
    ensures TimeProgress(t - MsPerHour, Some(t), Some(t + 2 * MsPerDay))
         == Progress(0, StartsIn(Countdown(0, 1, 0)))
  {
  }
}
