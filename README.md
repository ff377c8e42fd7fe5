# MediaRemote adapter: payload check and example clients

This project models, in Dafny, four parts of the MediaRemote adapter for macOS, and proves properties of each:

- **The mandatory-key check.** The adapter emits a now-playing payload only when every mandatory key is present with a non-null value. This is `allMandatoryPayloadKeysSet` in `src/adapter/keys.h`, module `PayloadKeys`.
- **The live terminal view** (`now-playing-live.py`, module `LiveView`). It reads the adapter's stream, keeps a dictionary `live` of the latest value of every payload key, and after each message redraws one line `▶ MM:SS/MM:SS  title - artist`. An empty non-difference payload resets `live` to the defaults. Every other message merges its non-null entries into `live`. The script's global state (`live`, `line`) is the class `LiveDisplay`, with methods for receiving a message, redrawing, and running the stream loop.
- **The one-shot menu-bar plugin** (`xbar-now-playing.1s.py`, module `XbarStatus`). It prints one status line for the decoded output of one query. Over-long titles and artists are cut and marked with an ellipsis.
- **The README badge script** (`update-readme-badges.py`, module `ReadmeBadges`). It builds three badge lines and rewrites every `<!-- BADGES BEGIN -->…<!-- BADGES END -->` region of a README with them. It uses Python's non-greedy `re.sub` with `re.DOTALL`.

Shared pieces:

- `Json` holds the decoded JSON values the scripts read, and the dictionary lookups, which raise `KeyError` or fail with a type error.
- `Text` holds Python's `isspace`, `strip`/`rstrip`, `str.split`, and the `{n:0wd}` integer format, with its reading back as digits.
- `MediaTime` holds the minutes/seconds split and the extrapolated playback position that both clients compute.
- `StreamLoop` holds the live view's stream loop in general form: apply a message, redraw, and stop at the first redraw that raises. `LiveView` instantiates it with its own step and redraw.

Parameters stand in for the clock, the adapter process, JSON decoding, `urllib.parse.quote` and file I/O:

- the current time in microseconds;
- the parsed stream messages or decoded payload;
- the URL-quoted system version and date;
- the README content.

## Model

| member | source | states |
|---|---|---|
| PayloadKeys.AllMandatoryPayloadKeysSet | src/adapter/keys.h:12-14 | true exactly when every key of the mandatory list is in the payload with a non-null value; one missing key or one null value makes it false |
| PayloadKeys.OnlyMandatoryKeysMatter | src/adapter/keys.h:12-14 | two payloads that agree on the mandatory keys are both valid or both invalid |
| PayloadKeys.ExtensionKeepsValid | src/adapter/keys.h:9-14 | a valid payload stays valid when entries that give no mandatory key a null value are added or overwritten |
| Json.Lookup | media-control/examples/now-playing-live.py:51 | a subscript yields the stored value exactly when the key is present; a missing key is a `KeyError` naming it |
| Json.GetInt | media-control/examples/now-playing-live.py:51-52 | a subscript yields an integer exactly when the key is present with an integer value; a missing key is a `KeyError` |
| Json.GetBool | media-control/examples/now-playing-live.py:52 | the same for the boolean `playing` |
| Json.GetStr | media-control/examples/now-playing-live.py:64-66 | the same for the string title and artist |
| Text.Rstrip | media-control/examples/xbar-now-playing.1s.py:18 | the result is a prefix of the input, does not end in whitespace, and only whitespace was removed |
| Text.Strip | media-control/examples/xbar-now-playing.1s.py:38-40 | the result is a slice of the input that neither starts nor ends with whitespace, and everything outside the slice is whitespace |
| Text.StripTrimmed | media-control/examples/xbar-now-playing.1s.py:38-40 | a text without whitespace at either end is its own strip |
| Text.FormatInt | media-control/examples/now-playing-live.py:45 | `{n:0wd}`: for n ≥ 0, digits that read back as n, exactly `max(len(str(n)), w)` long; for n < 0, a minus sign and digits that read back as −n, the sign counting towards the width |
| MediaTime.Minutes | media-control/examples/now-playing-live.py:43 | floor division by 60000000: the largest m with m·60000000 ≤ duration, negative durations included |
| MediaTime.Seconds | media-control/examples/now-playing-live.py:44 | `(duration // 1000000) % 60`: a value in 0..59 that counts the whole seconds past the last whole minute |
| MediaTime.MinutesSeconds | media-control/examples/now-playing-live.py:42-44 | the seconds lie in 0..59 and minutes·60 + seconds is the whole number of seconds, for negative durations too |
| MediaTime.TotalTime | media-control/examples/now-playing-live.py:52 | while paused the position is the elapsed time; while playing it advances by exactly the time passed since the sample |
| MediaTime.CurrentPosition | media-control/examples/now-playing-live.py:50-52 | succeeds exactly when the timestamp and elapsed time are integers and `playing` is a boolean, and is then the extrapolated position; failures follow Python's order of evaluation: a missing or non-integer timestamp first, then a missing elapsed time, then a missing `playing` |
| MediaTime.ClockReadsBack | media-control/examples/now-playing-live.py:45 | a clock of a natural minute count and natural seconds reads back as those two numbers, whatever the width of the minutes |
| LiveView.Defaults | media-control/examples/now-playing-live.py:12-19 | the defaults are exactly the six keys the view reads, none of them null |
| LiveView.NonNullEntries | media-control/examples/now-playing-live.py:37 | keeps exactly the payload entries whose value is not null, unchanged |
| LiveView.Step | media-control/examples/now-playing-live.py:33-38 | an empty non-difference payload resets to the defaults; otherwise non-null payload values win, every other key keeps its value and no key is lost |
| LiveView.StepConsistent | media-control/examples/now-playing-live.py:33-38 | one message keeps every default key present and no value null |
| LiveView.ReplayConsistent | media-control/examples/now-playing-live.py:31-38 | over any sequence of messages the view keeps every default key and never holds a null |
| LiveView.ReplayFromReset | media-control/examples/now-playing-live.py:34-35 | after a reset message the view no longer depends on anything received before it |
| LiveView.Format | media-control/examples/now-playing-live.py:42-45 | `{minutes:02d}:{seconds:02d}` is the clock of `duration // 60000000` and `(duration // 1000000) % 60` with minutes of width two; a non-negative duration's clock reads back as its whole minutes and the seconds within the minute |
| LiveView.FormatLayout | media-control/examples/now-playing-live.py:42-45 | for every duration, negative ones included, the clock is the minutes formatted to at least two characters, a colon, and exactly two second digits |
| MediaTime.ClockLayout | media-control/examples/now-playing-live.py:45 | for every minute count, negative ones included, a clock is the minutes formatted to at least the width, a colon as the third character from the end (as in `MM:SS`), and the seconds within the minute as exactly two characters |
| MediaTime.ClockPadding | media-control/examples/now-playing-live.py:45 | the minutes of a clock with a natural minute count are its decimal digits zero-padded to the width |
| LiveView.FormatShape | media-control/examples/now-playing-live.py:42-45 | under 100 minutes the clock is exactly the five characters `DD:DD` |
| LiveView.LineOf | media-control/examples/now-playing-live.py:55-67 | succeeds exactly when `playing`, the duration, the title and the artist have the types the line needs |
| LiveView.LineContent | media-control/examples/now-playing-live.py:56-67 | the line built is a carriage return, the play or pause icon, a space, the position's clock, `/`, the duration's clock, two spaces, the title, ` - ` and the artist |
| LiveView.Blank | media-control/examples/now-playing-live.py:53 | a carriage return followed by one space per character of the previous line |
| LiveView.Redraw | media-control/examples/now-playing-live.py:48-69 | a failing position writes nothing; a failing line writes only the blanking; otherwise the blanking and the new line are written and the new line is remembered; a failure keeps the old line |
| LiveView.RedrawNeverMissesKey | media-control/examples/now-playing-live.py:48-67 | in a consistent view a redraw never raises `KeyError`; with well-typed values it does not fail at all |
| LiveView.DefaultsWellTyped | media-control/examples/now-playing-live.py:12-19 | the defaults have the types the redraw needs |
| LiveView.StreamEndsOnlyOnTypeError | media-control/examples/now-playing-live.py:24-39 | started from a consistent view, the stream loop can stop early only on a value of the wrong type, never on a missing key |
| LiveView.LiveDisplay.constructor | media-control/examples/now-playing-live.py:20-21 | `live` starts as the defaults and the last line as empty |
| LiveView.LiveDisplay.Receive | media-control/examples/now-playing-live.py:32-38 | `live` becomes `Step` of the old `live` and the view stays consistent |
| LiveView.LiveDisplay.Dump | media-control/examples/now-playing-live.py:48-69 | what is written, the failure and the new line are those of `Redraw` from the old line; `live` is unchanged |
| LiveView.LiveDisplay.Stream | media-control/examples/now-playing-live.py:24-39 | the screen, the failure, `live` and `line` are those of the loop `StreamLoop.Run`, and the view stays consistent |
| StreamLoop.RunStep | media-control/examples/now-playing-live.py:31-39 | one more message read after successful redraws applies it and appends exactly one redraw of the new view |
| StreamLoop.RunFrames | media-control/examples/now-playing-live.py:31-39 | redraw k is of the view after k+1 messages from the line the earlier redraws left; every redraw before the last succeeded; the loop stops early exactly on a failing redraw, with its exception; the view is the replay of the messages read |
| XbarStatus.Format | media-control/examples/xbar-now-playing.1s.py:10-13 | `{minutes:01d}:{seconds:02d}` is the clock of the whole minutes and the seconds within the minute with minutes of width one; a non-negative duration's clock reads back as those two numbers |
| XbarStatus.FormatLayout | media-control/examples/xbar-now-playing.1s.py:10-13 | for every duration, negative ones included, the clock is the minutes formatted to at least one character, a colon, and exactly two second digits (`0:05` for five seconds) |
| XbarStatus.FormatUnpadded | media-control/examples/xbar-now-playing.1s.py:10-13 | for a non-negative duration the minutes are shown as their plain decimal digits, without padding |
| XbarStatus.Limit | media-control/examples/xbar-now-playing.1s.py:16-19 | a text that fits is kept; a longer one becomes a prefix of at most `max_length` characters, not ending in whitespace, plus one ellipsis, and only whitespace of the cut prefix is dropped |
| XbarStatus.Shown | media-control/examples/xbar-now-playing.1s.py:38-40 | `limit(text, 64).strip()`: a slice of the limited text with only whitespace outside it, without whitespace at either end, at most 65 characters; a field of at most 64 characters without surrounding whitespace is shown as it is |
| XbarStatus.Head | media-control/examples/xbar-now-playing.1s.py:32-36 | while paused the first part is the pause icon alone and the duration is never read; while playing it needs an integer duration (a missing one is a `KeyError`) and is exactly the play icon, two spaces, the formatted position, `﹘` and the formatted duration |
| XbarStatus.Compose | media-control/examples/xbar-now-playing.1s.py:31-41 | the line is the first part, two spaces, the shown title, ` – ` and the shown artist; so it starts with the first part, is at most 135 characters longer, and short unpadded fields appear verbatim |
| XbarStatus.StatusLine | media-control/examples/xbar-now-playing.1s.py:23-41 | JSON null prints `◼ No media`; a payload prints a line exactly when the keys read have the types used; a missing timestamp is the first `KeyError` |
| XbarStatus.StatusLinePlaying | media-control/examples/xbar-now-playing.1s.py:32-34 | while playing the line is the play icon, two spaces, the extrapolated position, `﹘` and the duration, composed with the title and the artist (in parallel with the paused case), so it starts with those clocks |
| XbarStatus.StatusLinePaused | media-control/examples/xbar-now-playing.1s.py:34-35 | while paused the line is the pause icon, the title and the artist, with no time |
| ReadmeBadges.StaticBadgesStrip | scripts/update-readme-badges.py:9-11 | stripping `STATIC_BADGES` leaves exactly the stars badge line |
| ReadmeBadges.MacosBadge | scripts/update-readme-badges.py:32 | the badge splits back into its fixed prefix, the quoted system version and its fixed suffix |
| ReadmeBadges.TestedBadge | scripts/update-readme-badges.py:33 | the badge splits back into its fixed prefix, the quoted date and its fixed suffix |
| ReadmeBadges.GenerateBadges | scripts/update-readme-badges.py:25-34 | the stripped static block is the stars badge alone, followed on their own lines by the two framed badges |
| ReadmeBadges.GenerateBadgesLines | scripts/update-readme-badges.py:34 | split at newlines, the generated text is exactly three lines: the stars badge and the two badges, each holding its quoted text between its prefix and suffix |
| ReadmeBadges.NoBackslashInBadges | scripts/update-readme-badges.py:30-34 | the generated text contains a backslash or `<` only where a quoted text does |
| ReadmeBadges.FindFirst | scripts/update-readme-badges.py:42 | the scan returns an occurrence of the pattern with none before it, or none when there is none at all |
| ReadmeBadges.MatchIsFirstRegion | scripts/update-readme-badges.py:42 | the non-greedy match is the first begin marker with the first end marker after it, and there is none exactly when no begin marker is followed by an end marker |
| ReadmeBadges.SubRegionsNoRegion | scripts/update-readme-badges.py:41-46 | text without a begin marker followed by an end marker is left as it is |
| ReadmeBadges.FirstRegionExists | scripts/update-readme-badges.py:41-46 | text with a marked region has a first one |
| ReadmeBadges.SubRegionsFirstRegion | scripts/update-readme-badges.py:41-46 | the first region is replaced, the text before it is kept, and the rest is rewritten on its own from the end of the region |
| ReadmeBadges.SubRegionsKeepsPrefix | scripts/update-readme-badges.py:41-46 | the text before the first region is kept verbatim |
| ReadmeBadges.SubRegionsIdempotent | scripts/update-readme-badges.py:41-46 | with a replacement of the form begin, newline, text without an end marker, newline, end, rewriting twice equals rewriting once |
| ReadmeBadges.UpdateReadme | scripts/update-readme-badges.py:41-46 | a README without a marked region is left as it is, and the text before the first region is always kept |
| ReadmeBadges.UpdateReadmeFirstRegion | scripts/update-readme-badges.py:41-46 | the first region is replaced by the markers around the badges, the text before it is kept, and the rest is rewritten on its own |
| ReadmeBadges.UpdateReadmeIdempotent | scripts/update-readme-badges.py:41-46 | rewriting twice with badges that contain no end marker equals rewriting once |
| ReadmeBadges.RefreshReadme | scripts/update-readme-badges.py:51-54 | a README without a marked region is written back unchanged |
| ReadmeBadges.RefreshReadmeFirstRegion | scripts/update-readme-badges.py:51-54 | a README with a marked region keeps the text before the first region, that region becomes the begin marker, a newline, the freshly generated badges, a newline and the end marker, and the rest is refreshed the same way |
| ReadmeBadges.RefreshReadmeIdempotent | scripts/update-readme-badges.py:51-54 | running the script twice with the same version and date leaves the README as one run left it |

Some functions that model source code have no row of their own, because the lemmas in the table state what they compute:
- `LiveView.Replay` (the messages of `stream`, now-playing-live.py:31-38) is described by `ReplayConsistent` and `ReplayFromReset`.
- `StreamLoop.Run` (the loop at now-playing-live.py:31-39) is described by `RunStep` and `RunFrames`.
- `ReadmeBadges.Find` and `ReadmeBadges.Match` (the search for `<!-- BADGES BEGIN -->.*?<!-- BADGES END -->`) are described by `FindFirst` and `MatchIsFirstRegion`.
- `ReadmeBadges.SubRegions` (`re.sub`, update-readme-badges.py:41-46) is described by the `SubRegions…` rows.

## Left out

- Process, clock, threads and I/O are not modelled. This covers:
  - spawning `media-control` and reading its output;
  - `json.loads`;
  - `time.time()`;
  - writing to stdout and flushing;
  - `system_profiler` and `date`;
  - reading and writing the README file.

  Their results are parameters.
- The live view's concurrency is not modelled. In `now-playing-live.py:72-76` the main thread redraws every second, while `stream` runs on the thread it spawns; both call `dump` and share `live` and `line`. `LiveDisplay.Dump` models one redraw at a given time, and `Stream` models the spawned thread alone, without the main thread's redraws interleaved.
- LiveView.LiveDisplay.Stream: a streamed line that is not a JSON object, or that lacks `diff` or `payload`, would raise in Python. Here messages are already `Message` values.
- `urllib.parse.quote` is not modelled. The quoted texts are parameters, and the requirements say which characters they lack (no newline, backslash or `<`), as quoting guarantees for those characters.
- ReadmeBadges.UpdateReadme: requires badges without a backslash. `re.sub` reads backslash escapes in its replacement template, and that is not modelled. `NoBackslashInBadges` shows the requirement holds whenever the quoted texts have no backslash.
- ReadmeBadges.UpdateReadmeIdempotent: assumes badges that contain no end marker. `RefreshReadmeIdempotent` discharges this for the script's own badges, whose quoted parts have no `<`.
- MediaTime.CurrentPosition, LiveView.LineOf, XbarStatus.StatusLine: keys are accepted only with the JSON type they are used as, and other payloads are reported as a type error here. Python also accepts some of them. An integer `playing` works through multiplication and truthiness, and a boolean time works because bool is a subtype of int. A string or array `playing` is repeated by `*` (now-playing-live.py:52, xbar-now-playing.1s.py:29), so with an elapsed time of the same kind Python computes a "position" of that kind. The menu-bar plugin then prints the paused line for an empty `playing`, and the live view writes the blanking before failing in `format`; the model reports `TypeError` for `playing` in both, before writing anything.
- Json.Value: JSON floats, arrays and objects all collapse into the single value `Other`, which every typed lookup rejects. A float time would let Python write the blanking and then fail inside `format`; here it fails before anything is written. The top-level output of the plugin's query is modelled as null or a dictionary.
- XbarStatus.Limit: `max_length` is a natural number. Python's negative slice indices are not modelled; the script only calls it with 64.
- PayloadKeys.AllMandatoryPayloadKeysSet: checks presence and non-null values only. The comment at `keys.h:9` also calls for values that are not empty, but the check documented at `keys.h:12-13` does not test for emptiness, and neither does the model.
- PayloadKeys.AllMandatoryPayloadKeysSet: the list of mandatory keys is a parameter.
  - The definitions of `mandatoryPayloadKeys` and `identifyingPayloadKeys` are not in the header, so they are not part of this model.
  - The header only declares the `k…` key constants. Their string values are the ones the Python clients use.
- Text: Python strings can hold lone surrogate code points, which a Dafny `char` cannot; such strings are not modelled.
- The rest of the repository is not part of this model. That includes the MediaRemote framework headers, the debouncer, the Swift controller, the JavaScript helpers, the test clients and environment handling.
