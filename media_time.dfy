/** Time arithmetic shared by the two example clients of the stream: every time
    value of the adapter's payload is an integer count of microseconds, and a
    clock reading is split into whole minutes and the seconds within the minute
    with Python's floor division and modulus (which agree with Dafny's `/` and
    `%` for the positive divisors used here). */
module MediaTime {
  import opened Json
  import opened Text
  import opened PayloadKeys

  const MicrosPerSecond: int := 1000000
  const MicrosPerMinute: int := 60000000

  /** `duration // 60000000`: the whole minutes, rounded towards minus
      infinity. */
  function Minutes(duration: int): (m: int)
    ensures m * MicrosPerMinute <= duration < m * MicrosPerMinute + MicrosPerMinute
  {
    duration / MicrosPerMinute
  }

  /** `(duration // 1000000) % 60`: the whole seconds within the minute
      `Minutes(duration)`. */
  function Seconds(duration: int): (s: int)
    ensures 0 <= s < 60
    ensures var inMinute := duration - Minutes(duration) * MicrosPerMinute;
      s * MicrosPerSecond <= inMinute < s * MicrosPerSecond + MicrosPerSecond
  {
    var q := duration / MicrosPerSecond;
    var r := duration % MicrosPerSecond;
    var a := q / 60;
    var b := q % 60;
    assert duration == MicrosPerSecond * q + r;
    assert q == 60 * a + b;
    assert duration == MicrosPerMinute * a + (MicrosPerSecond * b + r);
    assert 0 <= MicrosPerSecond * b + r < MicrosPerMinute;
    b
  }

  /** Minutes and seconds are a mixed-radix split of the whole seconds of
      `duration`: the seconds lie in `0..59` and only the sub-second
      microseconds are dropped. This holds for negative durations too, because
      both divisions round towards minus infinity. */
  lemma MinutesSeconds(duration: int)
    ensures 0 <= Seconds(duration) < 60
    ensures Minutes(duration) * 60 + Seconds(duration) == duration / MicrosPerSecond
  {
    var m, s := Minutes(duration), Seconds(duration);
    assert duration - (m * 60 + s) * MicrosPerSecond == (duration - m * MicrosPerMinute) - s * MicrosPerSecond;
  }

  /** A non-negative duration below 100 minutes has a minute count of at most
      two digits. */
  lemma MinutesBelowHundred(duration: int)
    requires 0 <= duration < 100 * MicrosPerMinute
    ensures 0 <= Minutes(duration) < 100
  {
  }

  /** The playback position shown to the user: the elapsed time sampled at
      `timestamp`, plus, while playing, the time that has passed since then
      (Python multiplies the time difference by the boolean, that is by 1 or
      by 0; the product is written here as a case distinction). */
  function TotalTime(elapsed: int, playing: bool, now: int, timestamp: int): (t: int)
    ensures !playing ==> t == elapsed
    ensures playing ==> t - elapsed == now - timestamp
  {
    elapsed + (if playing then now - timestamp else 0)
  }

  /** The extrapolated playback position of a decoded payload at time `now`,
      evaluated in Python's order: the timestamp is looked up and subtracted
      from `now` first; then the elapsed time and `playing` are looked up; only
      then are `playing` multiplied and the elapsed time added. */
  function CurrentPosition(d: Dict, now: int): (r: Result<int>)
    ensures r.Ok? <==>
      && TimestampEpochMicros in d && d[TimestampEpochMicros].Int?
      && ElapsedTimeMicros in d && d[ElapsedTimeMicros].Int?
      && Playing in d && d[Playing].Bool?
    ensures r.Ok? ==>
      r.value == TotalTime(d[ElapsedTimeMicros].i, d[Playing].b, now, d[TimestampEpochMicros].i)
    ensures TimestampEpochMicros !in d ==> r == Err(KeyError(TimestampEpochMicros))
    ensures r.Err? && r.error.KeyError? ==> r.error.key !in d
    ensures (TimestampEpochMicros in d && d[TimestampEpochMicros].Int?
             && (ElapsedTimeMicros !in d || Playing !in d)) ==> r.Err? && r.error.KeyError?
    ensures TimestampEpochMicros in d && !d[TimestampEpochMicros].Int? ==>
      r == Err(TypeError(TimestampEpochMicros))
    ensures TimestampEpochMicros in d && d[TimestampEpochMicros].Int? && ElapsedTimeMicros !in d ==>
      r == Err(KeyError(ElapsedTimeMicros))
    ensures TimestampEpochMicros in d && d[TimestampEpochMicros].Int? && ElapsedTimeMicros in d && Playing !in d ==>
      r == Err(KeyError(Playing))
  {
    var timestamp :- GetInt(d, TimestampEpochMicros);
    var elapsed :- Lookup(d, ElapsedTimeMicros);
    var playing :- Lookup(d, Playing);
    var factor :- AsBool(playing, Playing);
    var start :- AsInt(elapsed, ElapsedTimeMicros);
    Ok(TotalTime(start, factor, now, timestamp))
  }

  /** Reads back a `minutes:seconds` clock text, both fields non-empty digit
      strings; the reference reading for the two formatters. */
  function ParseClock(s: string): Option<(nat, nat)> {
    match SplitAt(s, ':')
    case None => None
    case Some(p) =>
      if p.0 != [] && p.1 != [] && AllDigits(p.0) && AllDigits(p.1)
      then Some((ParseDecimal(p.0), ParseDecimal(p.1)))
      else None
  }

  /** The clock text `minutes:seconds`: the minutes formatted to at least
      `width` characters, a colon, and the seconds zero-padded to two. */
  function Clock(minutes: int, seconds: int, width: nat): string {
    FormatInt(minutes, width) + ":" + FormatInt(seconds, 2)
  }

  /** Where the three parts of a clock lie, for every minute count, negative
      ones included (a minus sign and zero padding up to the width): the
      minutes formatted to at least `width` characters, a colon, and the
      seconds within the minute as exactly two digits. */
  lemma ClockLayout(minutes: int, seconds: int, width: nat)
    requires 0 <= seconds < 60
    ensures var r := Clock(minutes, seconds, width);
      && |r| >= width + 3 && |r| >= 4 && r[|r| - 3] == ':'
      && r[..|r| - 3] == FormatInt(minutes, width) && r[|r| - 2..] == FormatInt(seconds, 2)
  {
    var m, s := FormatInt(minutes, width), FormatInt(seconds, 2);
    assert Clock(minutes, seconds, width) == m + ":" + s;
    FormatIntWidth(minutes, width);
    TwoDigits(seconds);
    ClockParts(m, s);
  }

  /** The minutes of a clock with a natural minute count are its decimal
      digits zero-padded to the width. */
  lemma ClockPadding(minutes: int, seconds: int, width: nat)
    requires minutes >= 0 && 0 <= seconds < 60
    ensures var r := Clock(minutes, seconds, width); r[..|r| - 3] == ZeroPad(Decimal(minutes), width)
  {
    ClockLayout(minutes, seconds, width);
    PaddedFormat(minutes, width);
  }

  /** Where the parts of `m + ":" + s` lie, for two-character `s`. */
  lemma ClockParts(m: string, s: string)
    requires |s| == 2
    ensures var r := m + ":" + s;
      && |r| == |m| + 3 && r[|r| - 3] == ':'
      && r[..|r| - 3] == m && r[|r| - 2..] == s
  {
    var r := m + ":" + s;
    assert r[..|r| - 3] == m;
    assert r[|r| - 2..] == s;
  }

  /** A clock of natural minutes and seconds reads back as those numbers,
      whatever the width of the minutes. */
  lemma ClockReadsBack(minutes: int, seconds: int, width: nat)
    ensures minutes >= 0 && seconds >= 0 ==> ParseClock(Clock(minutes, seconds, width)) == Some((minutes, seconds))
  {
    if minutes >= 0 && seconds >= 0 {
      var a, b := FormatInt(minutes, width), FormatInt(seconds, 2);
      assert ':' !in a by {
        forall i | 0 <= i < |a| ensures a[i] != ':' { assert IsDigit(a[i]); }
      }
      SplitAtFirst(a, ':', b);
      assert a + ":" + b == a + [':'] + b;
      assert |Decimal(minutes)| >= 1 && |Decimal(seconds)| >= 1;
    }
  }
}
