/** The live now-playing view, a client of the adapter's stream: it keeps a
    dictionary `live` of the latest known value of every payload key, resets it
    to a fixed set of defaults or merges each streamed message into it, and
    after every message redraws one terminal line
    `▶ MM:SS/MM:SS  title - artist`. Reading the stream, the clock and the
    terminal are outside the model: messages arrive as parsed values and every
    redraw is given the current time in microseconds. */
module LiveView {
  import opened Json
  import opened Text
  import opened MediaTime
  import opened PayloadKeys
  import StreamLoop

  /** One line of the stream after JSON parsing: whether the payload is a
      difference against the previous one, and the payload itself. */
  datatype Message = Message(diff: bool, payload: Dict)

  /** No key is mapped to null. */
  predicate NoNulls(d: Dict) {
    forall k :: k in d ==> d[k] != Null
  }

  /** The six keys a redraw reads are all present. */
  predicate HasViewKeys(d: Dict) {
    && Title in d && Artist in d && TimestampEpochMicros in d
    && ElapsedTimeMicros in d && Playing in d && DurationMicros in d
  }

  /** The dictionary the view starts from and returns to on a reset; its
      timestamp is the time the script started. */
  function Defaults(startEpochMicros: int): (d: Dict)
    ensures NoNulls(d) && HasViewKeys(d)
    ensures d.Keys == {Title, Artist, TimestampEpochMicros, ElapsedTimeMicros, Playing, DurationMicros}
  {
    map[Title := Str("?"), Artist := Str("?"),
        TimestampEpochMicros := Int(startEpochMicros),
        ElapsedTimeMicros := Int(0), Playing := Bool(false), DurationMicros := Int(0)]
  }

  /** The payload without its null entries. */
  function NonNullEntries(p: Dict): (q: Dict)
    ensures forall k :: k in q <==> IsSet(p, k)
    ensures forall k :: k in q ==> k in p && q[k] == p[k]
  {
    map k | k in p && p[k] != Null :: p[k]
  }

  /** What one streamed message does to `live`. A non-difference message with
      an empty payload resets it to the defaults. Every other message, a
      non-empty non-difference message included, is merged: each payload key
      with a non-null value is overwritten, every other key keeps its value. */
  function Step(live: Dict, defaults: Dict, msg: Message): (r: Dict)
    ensures !msg.diff && |msg.payload| == 0 ==> r == defaults
    ensures msg.diff || |msg.payload| != 0 ==>
      && (forall k :: k in r <==> k in live || IsSet(msg.payload, k))
      && (forall k :: IsSet(msg.payload, k) ==> r[k] == msg.payload[k])
      && (forall k :: k in live && !IsSet(msg.payload, k) ==> r[k] == live[k])
    ensures msg.diff && |msg.payload| == 0 ==> r == live
  {
    if !msg.diff && |msg.payload| == 0 then defaults
    else live + NonNullEntries(msg.payload)
  }

  /** The view's invariant: every default key is present and nothing is null. */
  predicate Consistent(live: Dict, defaults: Dict) {
    defaults.Keys <= live.Keys && NoNulls(live)
  }

  lemma StepConsistent(live: Dict, defaults: Dict, msg: Message)
    requires NoNulls(defaults) && Consistent(live, defaults)
    ensures Consistent(Step(live, defaults, msg), defaults)
  {
  }

  /** One streamed message applied to `live`, as the function the `stream`
      loop is built from. */
  function StepWith(defaults: Dict): (Dict, Message) -> Dict
  {
    (live, msg) => Step(live, defaults, msg)
  }

  /** `live` after the messages `msgs`, in order. */
  function Replay(live: Dict, defaults: Dict, msgs: seq<Message>): Dict
  {
    StreamLoop.Replay(StepWith(defaults), live, msgs)
  }

  /** Over any sequence of messages the view keeps every default key and
      never holds a null. */
  lemma {:induction false} ReplayConsistent(live: Dict, defaults: Dict, msgs: seq<Message>)
    requires NoNulls(defaults) && Consistent(live, defaults)
    ensures Consistent(Replay(live, defaults, msgs), defaults)
  {
    if msgs != [] {
      ReplayConsistent(live, defaults, msgs[..|msgs| - 1]);
      StepConsistent(Replay(live, defaults, msgs[..|msgs| - 1]), defaults, msgs[|msgs| - 1]);
    }
  }

  /** A reset forgets everything before it: replaying messages that end with
      a reset, or with a reset followed by more messages, depends only on the
      messages from the reset on. */
  lemma ReplayFromReset(live1: Dict, live2: Dict, defaults: Dict, before: seq<Message>, after: seq<Message>)
    requires |before| > 0 && !before[|before| - 1].diff && |before[|before| - 1].payload| == 0
    ensures Replay(live1, defaults, before + after) == Replay(live2, defaults, [before[|before| - 1]] + after)
  {
    var reset := before[|before| - 1];
    var earlier := Replay(live1, defaults, before[..|before| - 1]);
    assert Step(earlier, defaults, reset) == defaults == Step(live2, defaults, reset);
    StreamLoop.ReplayForgets(StepWith(defaults), live1, live2, before, after);
  }

  /** `format(duration)`: minutes and seconds, each zero-padded to two
      characters. A non-negative clock reads back as its whole minutes and the
      seconds within the minute; only the sub-second microseconds are lost. */
  function Format(duration: int): (r: string)
    ensures duration >= 0 ==> ParseClock(r) == Some((Minutes(duration), Seconds(duration)))
  {
    var r := Clock(Minutes(duration), Seconds(duration), 2);
    if duration >= 0 then
      ClockReadsBack(Minutes(duration), Seconds(duration), 2);
      r
    else r
  }

  /** For every duration, negative ones included, the clock is the minutes
      zero-padded to at least two characters, a colon, and exactly two second
      digits. */
  lemma FormatLayout(duration: int)
    ensures var r := Format(duration);
      && |r| >= 5 && r[|r| - 3] == ':'
      && r[..|r| - 3] == FormatInt(Minutes(duration), 2)
      && r[|r| - 2..] == FormatInt(Seconds(duration), 2)
  {
    var minutes, seconds := Minutes(duration), Seconds(duration);
    assert Format(duration) == Clock(minutes, seconds, 2);
    ClockLayout(minutes, seconds, 2);
  }

  /** Under 100 minutes the clock is exactly five characters `DD:DD`. */
  lemma FormatShape(duration: int)
    requires 0 <= duration < 100 * MicrosPerMinute
    ensures |Format(duration)| == 5 && Format(duration)[2] == ':'
    ensures IsDigit(Format(duration)[0]) && IsDigit(Format(duration)[1])
    ensures IsDigit(Format(duration)[3]) && IsDigit(Format(duration)[4])
  {
    MinutesBelowHundred(duration);
    var minutes, seconds := Minutes(duration), Seconds(duration);
    var m, s := FormatInt(minutes, 2), FormatInt(seconds, 2);
    assert Format(duration) == Clock(minutes, seconds, 2);
    ClockLayout(minutes, seconds, 2);
    TwoDigits(minutes);
    assert Format(duration)[..2] == m && Format(duration)[3..] == s;
    assert m[0] == Format(duration)[0] && m[1] == Format(duration)[1];
    assert s[0] == Format(duration)[3] && s[1] == Format(duration)[4];
  }

  /** The line `dump` draws for the position `total`, or the exception
      building it raises, in Python's order: the duration is formatted before
      the title, and the title is concatenated before the artist. `dump` only
      builds the line once computing the position has succeeded, so `playing`
      is a boolean by then. */
  function LineOf(live: Dict, total: int): (r: Result<string>)
    ensures r.Ok? <==>
      && Playing in live && live[Playing].Bool?
      && DurationMicros in live && live[DurationMicros].Int?
      && Title in live && live[Title].Str?
      && Artist in live && live[Artist].Str?
    ensures r.Err? && r.error.KeyError? ==> r.error.key !in live
  {
    var playing :- GetBool(live, Playing);
    var duration :- GetInt(live, DurationMicros);
    var title :- GetStr(live, Title);
    var artist :- GetStr(live, Artist);
    Ok("\r" + (if playing then "\U{25b6}" else "\U{23f8}") + " " + Format(total) + "/"
       + Format(duration) + "  " + title + " - " + artist)
  }

  /** The line drawn: a carriage return, the play or pause icon, the clock of
      the position over the clock of the duration, two spaces, and the title
      and the artist around a dash, as in `▶ 00:46/04:58  title - artist`. */
  lemma LineContent(live: Dict, total: int)
    requires LineOf(live, total).Ok?
    ensures LineOf(live, total).value ==
      "\r" + (if live[Playing].b then "\U{25b6}" else "\U{23f8}") + " " + Format(total) + "/"
      + Format(live[DurationMicros].i) + "  " + live[Title].s + " - " + live[Artist].s
  {
    assert GetBool(live, Playing) == Ok(live[Playing].b);
    assert GetInt(live, DurationMicros) == Ok(live[DurationMicros].i);
    assert GetStr(live, Title) == Ok(live[Title].s) && GetStr(live, Artist) == Ok(live[Artist].s);
  }

  /** The text that blanks the previous line before a redraw. */
  function Blank(previous: string): (r: string)
    ensures |r| == |previous| + 1 && r[0] == '\r'
    ensures forall i :: 1 <= i < |r| ==> r[i] == ' '
  {
    "\r" + seq(|previous|, _ => ' ')
  }

  /** One `dump` at time `now` after the line `previous`: what reaches the
      terminal, the exception that stops it if any, and the line remembered
      afterwards. Computing the position comes before the blanking, so a
      failure there writes nothing; building the line comes after it, so a
      failure there has written the blanking only. Either way the remembered
      line stays as it was. */
  function Redraw(live: Dict, previous: string, now: int): (r: (string, Option<Failure>, string))
    ensures r.0 == "" <==> CurrentPosition(live, now).Err?
    ensures r.1.None? <==>
      CurrentPosition(live, now).Ok? && LineOf(live, CurrentPosition(live, now).value).Ok?
    ensures r.1.None? ==>
      && r.2 == LineOf(live, CurrentPosition(live, now).value).value
      && r.0 == Blank(previous) + r.2
    ensures r.1.Some? ==> r.2 == previous
    ensures CurrentPosition(live, now).Err? ==> r.1 == Some(CurrentPosition(live, now).error)
    ensures CurrentPosition(live, now).Ok? && LineOf(live, CurrentPosition(live, now).value).Err? ==>
      r.0 == Blank(previous) && r.1 == Some(LineOf(live, CurrentPosition(live, now).value).error)
  {
    match CurrentPosition(live, now)
    case Err(e) => ("", Some(e), previous)
    case Ok(total) =>
      match LineOf(live, total)
      case Err(e) => (Blank(previous), Some(e), previous)
      case Ok(next) => (Blank(previous) + next, None, next)
  }

  /** The six keys the view reads hold values of the types it uses them as. */
  predicate WellTyped(live: Dict) {
    && GetInt(live, TimestampEpochMicros).Ok? && GetInt(live, ElapsedTimeMicros).Ok?
    && GetBool(live, Playing).Ok? && GetInt(live, DurationMicros).Ok?
    && GetStr(live, Title).Ok? && GetStr(live, Artist).Ok?
  }

  /** Because the invariant keeps every default key, and the defaults hold
      every key a redraw reads, a redraw never fails with a missing key; with
      well-typed values it does not fail at all. */
  lemma RedrawNeverMissesKey(live: Dict, defaults: Dict, previous: string, now: int)
    requires HasViewKeys(defaults) && Consistent(live, defaults)
    ensures Redraw(live, previous, now).1.None? || Redraw(live, previous, now).1.value.TypeError?
    ensures WellTyped(live) ==> Redraw(live, previous, now).1.None?
  {
  }

  lemma DefaultsWellTyped(start: int)
    ensures WellTyped(Defaults(start))
  {
  }

  /** The `stream` loop from a consistent view with the script's defaults
      can stop early only on a value of the wrong type, never on a missing
      key: every redraw reads a view that still holds every default key. */
  lemma StreamEndsOnlyOnTypeError(live: Dict, defaults: Dict, line: string, msgs: seq<Message>, clock: seq<int>, n: nat)
    requires n <= |msgs| == |clock|
    requires NoNulls(defaults) && HasViewKeys(defaults) && Consistent(live, defaults)
    ensures var run := StreamLoop.Run(StepWith(defaults), Redraw, live, line, msgs, clock, n);
      run.1.Some? ==> run.1.value.TypeError?
  {
    var run := StreamLoop.Run(StepWith(defaults), Redraw, live, line, msgs, clock, n);
    if run.1.Some? {
      StreamLoop.RunFrames(StepWith(defaults), Redraw, live, line, msgs, clock, n);
      var k := |run.0| - 1;
      var view := Replay(live, defaults, msgs[..k + 1]);
      var previous := StreamLoop.LineAfter(StepWith(defaults), Redraw, live, line, msgs, clock, k);
      var frame := StreamLoop.Redrawn(StepWith(defaults), Redraw, live, line, msgs, clock, k);
      assert run.1 == frame.1;
      assert frame == Redraw(view, previous, clock[k]);
      ReplayConsistent(live, defaults, msgs[..k + 1]);
      RedrawNeverMissesKey(view, defaults, previous, clock[k]);
    }
  }

  /** The script's global state: the defaults fixed at start-up, the live
      dictionary and the line last drawn. */
  class LiveDisplay {
    const defaults: Dict
    var live: Dict
    var line: string

    ghost predicate Valid()
      reads this
    {
      NoNulls(defaults) && Consistent(live, defaults)
    }

    constructor (startEpochMicros: int)
      ensures Valid()
      ensures defaults == Defaults(startEpochMicros) && live == defaults && line == ""
    {
      defaults := Defaults(startEpochMicros);
      live := Defaults(startEpochMicros);
      line := "";
    }

    /** The body of the `stream` loop for one parsed message, before the
        redraw. */
    method Receive(msg: Message)
      requires Valid()
      modifies this`live
      ensures Valid()
      ensures live == Step(old(live), defaults, msg)
    {
      if !msg.diff && |msg.payload| == 0 {
        live := defaults;
      } else {
        live := live + NonNullEntries(msg.payload);
      }
    }

    /** `dump`: computes the position at time `now`, blanks the previous line,
        then draws and remembers the new one. `written` is what reaches the
        terminal; `failure` is the exception that stops it, if any. */
    method Dump(now: int) returns (written: string, failure: Option<Failure>)
      modifies this`line
      ensures written == Redraw(live, old(line), now).0
      ensures failure == Redraw(live, old(line), now).1
      ensures line == Redraw(live, old(line), now).2
    {
      var view, previous := live, line;
      ghost var frame := Redraw(view, previous, now);
      var total := CurrentPosition(view, now);
      if total.Err? {
        written, failure := "", Some(total.error);
        assert frame == (written, failure, previous);
        return;
      }
      written := Blank(previous);
      var next := LineOf(view, total.value);
      if next.Err? {
        failure := Some(next.error);
        assert frame == (written, failure, previous);
        return;
      }
      written, failure := written + next.value, None;
      assert frame == (written, failure, next.value);
      line := next.value;
    }

    /** `stream`: applies the messages in order and redraws after each one,
        the k-th redraw at time `clock[k]`; an exception in a redraw ends the
        loop after the message that triggered it has been applied. The
        result and the new state are those of the loop `StreamLoop.Run` with
        this view's `Step` and `Redraw`; `StreamLoop.RunFrames` describes
        them redraw by redraw, and `StreamEndsOnlyOnTypeError` shows that
        it never stops on a missing key. */
    method Stream(msgs: seq<Message>, clock: seq<int>) returns (screen: seq<string>, failure: Option<Failure>)
      requires Valid() && |clock| == |msgs|
      modifies this`live, this`line
      ensures Valid()
      ensures |screen| <= |msgs| && (failure.None? ==> |screen| == |msgs|)
      ensures screen == StreamLoop.Run(StepWith(defaults), Redraw, old(live), old(line), msgs, clock, |screen|).0
      ensures failure == StreamLoop.Run(StepWith(defaults), Redraw, old(live), old(line), msgs, clock, |screen|).1
      ensures live == StreamLoop.Run(StepWith(defaults), Redraw, old(live), old(line), msgs, clock, |screen|).2
      ensures line == StreamLoop.Run(StepWith(defaults), Redraw, old(live), old(line), msgs, clock, |screen|).3
    {
      screen, failure := [], None;
      var i := 0;
      while i < |msgs|
        invariant 0 <= i <= |msgs| && |screen| == i
        invariant Valid()
        invariant StreamLoop.Run(StepWith(defaults), Redraw, old(live), old(line), msgs, clock, i).1.None?
        invariant screen == StreamLoop.Run(StepWith(defaults), Redraw, old(live), old(line), msgs, clock, i).0
        invariant live == StreamLoop.Run(StepWith(defaults), Redraw, old(live), old(line), msgs, clock, i).2
        invariant line == StreamLoop.Run(StepWith(defaults), Redraw, old(live), old(line), msgs, clock, i).3
      {
        ghost var before := StreamLoop.Run(StepWith(defaults), Redraw, old(live), old(line), msgs, clock, i);
        StreamLoop.RunStep(StepWith(defaults), Redraw, old(live), old(line), msgs, clock, i);
        Receive(msgs[i]);
        assert live == StepWith(defaults)(before.2, msgs[i]);
        ghost var frame := Redraw(live, before.3, clock[i]);
        var w, f := Dump(clock[i]);
        assert w == frame.0 && f == frame.1 && line == frame.2;
        screen := screen + [w];
        i := i + 1;
        if f.Some? {
          failure := f;
          return;
        }
      }
    }
  }
}
