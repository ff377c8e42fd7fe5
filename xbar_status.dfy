/** The one-shot menu-bar plugin: it asks the adapter once for the current
    now-playing payload and prints a single status line, `▶  M:SS﹘M:SS  title –
    artist` while playing, `⏸  title – artist` while paused, or `◼ No media`
    when nothing is playing. Running the adapter, decoding its JSON and reading
    the clock are outside the model: the decoded payload (None for JSON null)
    and the current time in microseconds are parameters. */
module XbarStatus {
  import opened Json
  import opened Text
  import opened MediaTime
  import opened PayloadKeys

  /** The longest title or artist shown before it is cut. */
  const MaxFieldLength: nat := 64

  const Ellipsis: char := '\U{2026}'

  const NoMedia: string := "\U{25fc} No media"

  /** `format(duration)`: unpadded minutes, then a colon and the seconds
      zero-padded to exactly two characters. For a non-negative duration the
      minutes are the plain decimal digits of `duration // 60000000` and the
      text reads back as the whole minutes and the seconds within the
      minute. */
  function Format(duration: int): (r: string)
    ensures duration >= 0 ==> ParseClock(r) == Some((Minutes(duration), Seconds(duration)))
  {
    var r := Clock(Minutes(duration), Seconds(duration), 1);
    if duration >= 0 then
      ClockReadsBack(Minutes(duration), Seconds(duration), 1);
      r
    else r
  }

  /** For every duration, negative ones included, the clock is the minutes
      formatted to at least one character, a colon, and exactly two second
      digits. */
  lemma FormatLayout(duration: int)
    ensures var r := Format(duration);
      && |r| >= 4 && r[|r| - 3] == ':'
      && r[..|r| - 3] == FormatInt(Minutes(duration), 1)
      && r[|r| - 2..] == FormatInt(Seconds(duration), 2)
  {
    var minutes, seconds := Minutes(duration), Seconds(duration);
    assert Format(duration) == Clock(minutes, seconds, 1);
    ClockLayout(minutes, seconds, 1);
  }

  /** For a non-negative duration the minutes are shown as their plain
      decimal digits, without padding. */
  lemma FormatUnpadded(duration: int)
    requires duration >= 0
    ensures var r := Format(duration); r[..|r| - 3] == Decimal(Minutes(duration))
  {
    var minutes, seconds := Minutes(duration), Seconds(duration);
    assert Format(duration) == Clock(minutes, seconds, 1);
    ClockPadding(minutes, seconds, 1);
    assert ZeroPad(Decimal(minutes), 1) == Decimal(minutes);
  }

  /** `limit(text, max_length)`: a text that fits is kept; a longer one is cut
      to `max_length` characters, stripped of the whitespace the cut leaves at
      its end, and marked with a single ellipsis. */
  function Limit(text: string, maxLength: nat): (r: string)
    ensures |text| <= maxLength ==> r == text
    ensures |text| > maxLength ==>
      && 1 <= |r| <= maxLength + 1 && r[|r| - 1] == Ellipsis
      && var kept := r[..|r| - 1];
         && kept == text[..|kept|]
         && (kept == [] || !IsSpace(kept[|kept| - 1]))
         && forall i :: |kept| <= i < maxLength ==> IsSpace(text[i])
  {
    if |text| > maxLength then Rstrip(text[..maxLength]) + [Ellipsis] else text
  }

  /** What the line needs from a decoded payload: the three times are
      integers, `playing` is a boolean, the duration is an integer when it is
      shown (only while playing), and title and artist are strings. */
  predicate Printable(d: Dict) {
    && TimestampEpochMicros in d && d[TimestampEpochMicros].Int?
    && ElapsedTimeMicros in d && d[ElapsedTimeMicros].Int?
    && Playing in d && d[Playing].Bool?
    && (d[Playing].b ==> DurationMicros in d && d[DurationMicros].Int?)
    && Title in d && d[Title].Str?
    && Artist in d && d[Artist].Str?
  }

  /** The line's first part, with the position `total` already computed:
      while playing, the play icon, the position and the duration, formatted
      in that order; while paused, the pause icon alone, and the duration is
      never read. */
  function Head(d: Dict, playing: bool, total: int): (r: Result<string>)
    ensures !playing ==> r == Ok("\U{23f8}")
    ensures playing ==> (r.Ok? <==> DurationMicros in d && d[DurationMicros].Int?)
    ensures playing && DurationMicros !in d ==> r == Err(KeyError(DurationMicros))
    ensures playing && r.Ok? ==>
      var play := "\U{25b6}  " + Format(total) + "\U{fe58}";
      |play| <= |r.value| && r.value[..|play|] == play
    ensures playing && r.Ok? ==>
      r.value == "\U{25b6}  " + Format(total) + "\U{fe58}" + Format(d[DurationMicros].i)
  {
    if playing then
      var duration :- GetInt(d, DurationMicros);
      var play := "\U{25b6}  " + Format(total) + "\U{fe58}";
      assert (play + Format(duration))[..|play|] == play;
      Ok(play + Format(duration))
    else Ok("\U{23f8}")
  }

  /** The printed line for the decoded output of one query, or the exception
      the script dies with. The position is computed first, as in
      `now-playing-live.py`; then the first part is built while `playing` is
      known to be a boolean; then the title and the artist are read. */
  function StatusLine(data: Option<Dict>, now: int): (r: Result<string>)
    ensures data.None? ==> r == Ok(NoMedia)
    ensures data.Some? ==> (r.Ok? <==> Printable(data.value))
    ensures data.Some? && TimestampEpochMicros !in data.value ==> r == Err(KeyError(TimestampEpochMicros))
    ensures data.Some? && r.Err? && r.error.KeyError? ==> r.error.key !in data.value
  {
    match data
    case None => Ok(NoMedia)
    case Some(d) =>
      var total :- CurrentPosition(d, now);
      var head :- Head(d, d[Playing].b, total);
      var title :- GetStr(d, Title);
      var artist :- GetStr(d, Artist);
      Ok(Compose(head, title, artist))
  }

  /** A title or artist as the line shows it: cut to the limit, then
      stripped. It is never longer than the limit plus the ellipsis and has no
      whitespace at either end; one that fits and has no whitespace at either
      end is shown as it is. */
  function Shown(text: string): (r: string)
    ensures |r| <= MaxFieldLength + 1 && Unpadded(r)
    ensures exists a :: TrimmedAt(Limit(text, MaxFieldLength), r, a)
    ensures |text| <= MaxFieldLength && Unpadded(text) ==> r == text
  {
    if |text| <= MaxFieldLength && Unpadded(text) then
      StripTrimmed(text);
      Strip(Limit(text, MaxFieldLength))
    else Strip(Limit(text, MaxFieldLength))
  }

  /** The printed line from its first part, the title and the artist: the
      first part, two spaces, then the title and the artist, each cut to the
      limit and stripped, around an en dash. A title and an artist that fit
      and have no whitespace at either end appear verbatim. */
  function Compose(head: string, title: string, artist: string): (line: string)
    ensures line == head + "  " + Shown(title) + " \U{2013} " + Shown(artist)
    ensures |head| + 2 <= |line| && line[..|head|] == head && line[|head|..|head| + 2] == "  "
    ensures |line| <= |head| + 2 + (MaxFieldLength + 1) + 3 + (MaxFieldLength + 1)
    ensures |title| <= MaxFieldLength && Unpadded(title) && |artist| <= MaxFieldLength && Unpadded(artist) ==>
      line == head + "  " + title + " \U{2013} " + artist
  {
    var shownTitle, shownArtist := Shown(title), Shown(artist);
    Layout(head, "  ", shownTitle, " \U{2013} ", shownArtist);
    head + "  " + shownTitle + " \U{2013} " + shownArtist
  }

  /** Where the parts of `a + b + c + d + e` lie in it. */
  lemma Layout<T>(a: seq<T>, b: seq<T>, c: seq<T>, d: seq<T>, e: seq<T>)
    ensures var line := a + b + c + d + e;
      && |line| == |a| + |b| + |c| + |d| + |e|
      && line[..|a|] == a
      && line[|a|..|a| + |b|] == b
  {
    var line := a + b + c + d + e;
    assert line == a + (b + (c + d + e));
    assert line[|a|..] == b + (c + d + e);
    assert line[|a|..][..|b|] == b;
  }

  /** For a printable payload the line is the composition of its first part
      with its title and artist (a step of the two proofs below). */
  lemma StatusLineShape(d: Dict, now: int)
    requires Printable(d)
    ensures
      var total := TotalTime(d[ElapsedTimeMicros].i, d[Playing].b, now, d[TimestampEpochMicros].i);
      && Head(d, d[Playing].b, total).Ok?
      && StatusLine(Some(d), now) == Ok(Compose(Head(d, d[Playing].b, total).value, d[Title].s, d[Artist].s))
  {
    assert GetStr(d, Title) == Ok(d[Title].s) && GetStr(d, Artist) == Ok(d[Artist].s);
  }

  /** While playing, the line is the play icon, the extrapolated position
      and the duration, composed with the title and the artist; so it starts
      with the icon and the two clocks. */
  lemma StatusLinePlaying(d: Dict, now: int)
    requires Printable(d) && d[Playing] == Bool(true)
    ensures StatusLine(Some(d), now).Ok?
    ensures
      var total := TotalTime(d[ElapsedTimeMicros].i, true, now, d[TimestampEpochMicros].i);
      StatusLine(Some(d), now) == Ok(Compose("\U{25b6}  " + Format(total) + "\U{fe58}" + Format(d[DurationMicros].i),
                                             d[Title].s, d[Artist].s))
    ensures
      var head := "\U{25b6}  " + Format(TotalTime(d[ElapsedTimeMicros].i, true, now, d[TimestampEpochMicros].i))
                  + "\U{fe58}" + Format(d[DurationMicros].i);
      var line := StatusLine(Some(d), now).value;
      |head| <= |line| && line[..|head|] == head
  {
    StatusLineShape(d, now);
    var total := TotalTime(d[ElapsedTimeMicros].i, true, now, d[TimestampEpochMicros].i);
    assert GetInt(d, DurationMicros) == Ok(d[DurationMicros].i);
    assert Head(d, true, total).value == "\U{25b6}  " + Format(total) + "\U{fe58}" + Format(d[DurationMicros].i);
  }

  /** While paused, the line is the pause icon, the title and the artist; no
      time is shown. */
  lemma StatusLinePaused(d: Dict, now: int)
    requires Printable(d) && d[Playing] == Bool(false)
    ensures StatusLine(Some(d), now) == Ok(Compose("\U{23f8}", d[Title].s, d[Artist].s))
  {
    StatusLineShape(d, now);
  }
}
