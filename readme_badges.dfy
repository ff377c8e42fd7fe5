/** The maintenance script that refreshes the badges in the project README: it
    builds three badge lines (a fixed star-count badge, the tested operating
    system version and the test date) and replaces every marked badge region of
    the README with them. Running `system_profiler` and `date`, URL-quoting
    their output, and reading and writing the file are outside the model: the
    quoted texts and the file content are parameters. */
module ReadmeBadges {
  import opened Json
  import opened Text

  /** No newline, backslash or `<`: the characters that matter to the
      README rewrite. */
  predicate Plain(s: string) {
    '\n' !in s && '\\' !in s && '<' !in s
  }

  /** The single badge line of `STATIC_BADGES`. The long literals are written
      as concatenations of pieces of at most 22 characters: the verifier
      checks which characters a literal contains at a cost that grows
      quickly with its length. */
  const StarsBadge1: string := "![](https://img.shield"
  const StarsBadge2: string := "s.io/github/stars/ungi"
  const StarsBadge3: string := "ve/mediaremote-adapter"
  const StarsBadge4: string := "?style=flat&label=star"
  const StarsBadge5: string := "s&logo=github&labelCol"
  const StarsBadge6: string := "or=444&color=DAAA3F&ca"
  const StarsBadge7: string := "cheSeconds=3600)"
  const StarsBadge: string := StarsBadge1 + StarsBadge2 + StarsBadge3 + StarsBadge4 + StarsBadge5 + StarsBadge6 + StarsBadge7

  /** `STATIC_BADGES`: the badge line between the newline after the opening
      quotes and the one before the closing quotes. */
  const StaticBadges: string := "\n" + StarsBadge + "\n"

  /** The fixed parts of `badge1` and `badge2` around the quoted texts; both
      badges start with the same static-badge address. */
  const StaticBadgeUrl1: string := "![](https://img.shield"
  const StaticBadgeUrl2: string := "s.io/static/v1?label="
  const StaticBadgeUrl: string := StaticBadgeUrl1 + StaticBadgeUrl2
  const MacosLabel: string := "macOS&message="
  const MacosBadgePrefix: string := StaticBadgeUrl + MacosLabel
  const MacosBadgeSuffix1: string := "&labelColor=444&color="
  const MacosBadgeSuffix2: string := "blue)"
  const MacosBadgeSuffix: string := MacosBadgeSuffix1 + MacosBadgeSuffix2
  const TestedLabel: string := "last%20tested&message="
  const TestedBadgePrefix: string := StaticBadgeUrl + TestedLabel
  const TestedBadgeSuffix: string := "&labelColor=444&color)"

  lemma StarsBadge1Plain() ensures Plain(StarsBadge1) {}
  lemma StarsBadge2Plain() ensures Plain(StarsBadge2) {}
  lemma StarsBadge3Plain() ensures Plain(StarsBadge3) {}
  lemma StarsBadge4Plain() ensures Plain(StarsBadge4) {}
  lemma StarsBadge5Plain() ensures Plain(StarsBadge5) {}
  lemma StarsBadge6Plain() ensures Plain(StarsBadge6) {}
  lemma StarsBadge7Plain() ensures Plain(StarsBadge7) {}
  lemma StaticBadgeUrl1Plain() ensures Plain(StaticBadgeUrl1) {}
  lemma StaticBadgeUrl2Plain() ensures Plain(StaticBadgeUrl2) {}
  lemma MacosLabelPlain() ensures Plain(MacosLabel) {}
  lemma MacosBadgeSuffix1Plain() ensures Plain(MacosBadgeSuffix1) {}
  lemma MacosBadgeSuffix2Plain() ensures Plain(MacosBadgeSuffix2) {}
  lemma TestedLabelPlain() ensures Plain(TestedLabel) {}
  lemma TestedBadgeSuffixPlain() ensures Plain(TestedBadgeSuffix) {}

  lemma StarsBadgePlain()
    ensures Plain(StarsBadge) && StarsBadge[0] == '!' && StarsBadge[|StarsBadge| - 1] == ')'
  {
    StarsBadge1Plain();
    StarsBadge2Plain();
    StarsBadge3Plain();
    StarsBadge4Plain();
    StarsBadge5Plain();
    StarsBadge6Plain();
    StarsBadge7Plain();
    assert StarsBadge[0] == StarsBadge1[0];
    assert StarsBadge[|StarsBadge| - 1] == StarsBadge7[|StarsBadge7| - 1];
  }

  lemma FixedPartsPlain()
    ensures Plain(MacosBadgePrefix) && Plain(MacosBadgeSuffix)
    ensures Plain(TestedBadgePrefix) && Plain(TestedBadgeSuffix)
  {
    StaticBadgeUrl1Plain();
    StaticBadgeUrl2Plain();
    MacosLabelPlain();
    MacosBadgeSuffix1Plain();
    MacosBadgeSuffix2Plain();
    TestedLabelPlain();
    TestedBadgeSuffixPlain();
  }

  /** Stripping a line framed by two newlines gives the line back when it
      neither starts nor ends with whitespace. */
  lemma StripFramed(x: string)
    requires |x| > 0 && !IsSpace(x[0]) && !IsSpace(x[|x| - 1])
    ensures Strip("\n" + x + "\n") == x
  {
    var s := "\n" + x + "\n";
    assert s[..|s| - 1] == "\n" + x;
    assert Rstrip(s) == "\n" + x;
    assert ("\n" + x)[1..] == x;
  }

  lemma StaticBadgesStrip()
    ensures Strip(StaticBadges) == StarsBadge
  {
    StarsBadgePlain();
    StripFramed(StarsBadge);
  }


  /** A text framed by a prefix and a suffix splits back into the three. */
  lemma Framed(prefix: string, x: string, suffix: string)
    ensures var f := prefix + x + suffix;
      && |prefix| + |suffix| <= |f|
      && f[..|prefix|] == prefix
      && f[|prefix|..|f| - |suffix|] == x
      && f[|f| - |suffix|..] == suffix
  {
    var f := prefix + x + suffix;
    assert f[..|prefix|] == prefix;
    assert f[|prefix|..|f| - |suffix|] == x;
    assert f[|f| - |suffix|..] == suffix;
  }

  /** `badge1`: the operating system badge, the quoted version text between
      its fixed prefix and suffix. */
  function MacosBadge(encodedSystemVersion: string): (r: string)
    ensures |MacosBadgePrefix| + |MacosBadgeSuffix| <= |r|
    ensures r[..|MacosBadgePrefix|] == MacosBadgePrefix
    ensures r[|MacosBadgePrefix|..|r| - |MacosBadgeSuffix|] == encodedSystemVersion
    ensures r[|r| - |MacosBadgeSuffix|..] == MacosBadgeSuffix
  {
    Framed(MacosBadgePrefix, encodedSystemVersion, MacosBadgeSuffix);
    MacosBadgePrefix + encodedSystemVersion + MacosBadgeSuffix
  }

  /** `badge2`: the last-tested badge, the quoted date text between its fixed
      prefix and suffix. */
  function TestedBadge(encodedDate: string): (r: string)
    ensures |TestedBadgePrefix| + |TestedBadgeSuffix| <= |r|
    ensures r[..|TestedBadgePrefix|] == TestedBadgePrefix
    ensures r[|TestedBadgePrefix|..|r| - |TestedBadgeSuffix|] == encodedDate
    ensures r[|r| - |TestedBadgeSuffix|..] == TestedBadgeSuffix
  {
    Framed(TestedBadgePrefix, encodedDate, TestedBadgeSuffix);
    TestedBadgePrefix + encodedDate + TestedBadgeSuffix
  }

  /** `generate_badges`, given the URL-quoted system version and date: the
      stripped static block is the stars badge alone, so the text is that
      badge and the two framed badges, one per line. */
  function GenerateBadges(encodedSystemVersion: string, encodedDate: string): (r: string)
    ensures r == StarsBadge + "\n" + MacosBadge(encodedSystemVersion) + "\n" + TestedBadge(encodedDate)
  {
    StaticBadgesStrip();
    Strip(StaticBadges) + "\n" + MacosBadge(encodedSystemVersion) + "\n" + TestedBadge(encodedDate)
  }

  /** The generated text is exactly three lines: the stars badge, then each
      quoted text framed by its badge's fixed prefix and suffix. (URL quoting
      never leaves a newline in its output.) */
  lemma GenerateBadgesLines(encodedSystemVersion: string, encodedDate: string)
    requires '\n' !in encodedSystemVersion && '\n' !in encodedDate
    ensures Split(GenerateBadges(encodedSystemVersion, encodedDate), '\n')
         == [StarsBadge, MacosBadge(encodedSystemVersion), TestedBadge(encodedDate)]
    ensures var m := MacosBadge(encodedSystemVersion);
      && |MacosBadgePrefix| + |MacosBadgeSuffix| <= |m|
      && m[..|MacosBadgePrefix|] == MacosBadgePrefix
      && m[|MacosBadgePrefix|..|m| - |MacosBadgeSuffix|] == encodedSystemVersion
      && m[|m| - |MacosBadgeSuffix|..] == MacosBadgeSuffix
    ensures var t := TestedBadge(encodedDate);
      && |TestedBadgePrefix| + |TestedBadgeSuffix| <= |t|
      && t[..|TestedBadgePrefix|] == TestedBadgePrefix
      && t[|TestedBadgePrefix|..|t| - |TestedBadgeSuffix|] == encodedDate
      && t[|t| - |TestedBadgeSuffix|..] == TestedBadgeSuffix
  {
    StaticBadgesStrip();
    StarsBadgePlain();
    FixedPartsPlain();
    SplitJoin3(StarsBadge, MacosBadge(encodedSystemVersion), TestedBadge(encodedDate), '\n');
  }

  const Begin: string := "<!-- BADGES BEGIN -->"
  const End: string := "<!-- BADGES END -->"

  /** `pat` occurs in `s` starting at index `k`. */
  predicate OccursAt(s: string, pat: string, k: nat) {
    k + |pat| <= |s| && forall p :: 0 <= p < |pat| ==> s[k + p] == pat[p]
  }

  /** The first index at or after `from` where `pat` occurs, scanning from
      left to right; `FindFirst` states that it is exactly that. */
  function Find(s: string, pat: string, from: nat): (r: Option<nat>)
    ensures r.Some? ==> from <= r.value && r.value + |pat| <= |s|
    decreases |s| - from
  {
    if from + |pat| > |s| then None
    else if OccursAt(s, pat, from) then Some(from)
    else Find(s, pat, from + 1)
  }

  /** `Find` returns an occurrence with none before it, or none when there
      is none at all. */
  lemma {:induction false} FindFirst(s: string, pat: string, from: nat)
    ensures Find(s, pat, from).Some? ==> OccursAt(s, pat, Find(s, pat, from).value)
    ensures Find(s, pat, from).Some? ==> forall k :: from <= k < Find(s, pat, from).value ==> !OccursAt(s, pat, k)
    ensures Find(s, pat, from).None? ==> forall k :: from <= k ==> !OccursAt(s, pat, k)
    decreases |s| - from
  {
    if from + |pat| <= |s| && !OccursAt(s, pat, from) {
      FindFirst(s, pat, from + 1);
    }
  }

  /** The first occurrence at or after `from` is what `Find` returns. */
  lemma FindLeast(s: string, pat: string, from: nat, k: nat)
    requires from <= k && OccursAt(s, pat, k)
    requires forall m :: from <= m < k ==> !OccursAt(s, pat, m)
    ensures Find(s, pat, from).Some? && Find(s, pat, from).value == k
  {
    FindFirst(s, pat, from);
  }

  /** Some `begin` is followed, later, by an `end`. */
  ghost predicate HasRegion(s: string, begin: string, end: string) {
    exists i: nat, j: nat :: i + |begin| <= j && OccursAt(s, begin, i) && OccursAt(s, end, j)
  }

  /** The region the non-greedy pattern `begin.*?end` matches first: the
      first `begin`, and the first `end` that starts after it. */
  predicate IsFirstRegion(s: string, begin: string, end: string, i: nat, j: nat) {
    && OccursAt(s, begin, i)
    && (forall k :: 0 <= k < i ==> !OccursAt(s, begin, k))
    && i + |begin| <= j
    && OccursAt(s, end, j)
    && (forall k :: i + |begin| <= k < j ==> !OccursAt(s, end, k))
  }

  /** Where the pattern `begin.*?end` first matches, if anywhere: `begin`
      at `start` and `end` at `close`. */
  datatype Region = NoMatch | MatchAt(start: nat, close: nat)

  /** The scan `re.search` makes for `begin.*?end`: the first `begin`, then
      the first `end` after it. */
  function Match(s: string, begin: string, end: string): (m: Region)
    ensures m.MatchAt? ==> m.start + |begin| <= m.close && m.close + |end| <= |s|
  {
    var first := Find(s, begin, 0);
    if first.None? then NoMatch
    else
      var close := Find(s, end, first.value + |begin|);
      if close.None? then NoMatch else MatchAt(first.value, close.value)
  }

  /** `re.sub` with the pattern `begin.*?end` under `re.DOTALL` and a
      replacement `repl` without backslash escapes: scanning from the left,
      each shortest region from a `begin` to the next `end`, newlines
      included, becomes `repl`, and the scan resumes after the region. The
      text before the first `begin` is kept. */
  function SubRegions(s: string, begin: string, end: string, repl: string): (r: string)
    requires |end| > 0
    decreases |s|
  {
    var m := Match(s, begin, end);
    if m.NoMatch? then s
    else s[..m.start] + repl + SubRegions(s[m.close + |end|..], begin, end, repl)
  }

  /** `Match` finds the first region, and finds none exactly when there is
      no `begin` followed by an `end`. */
  lemma MatchIsFirstRegion(s: string, begin: string, end: string)
    ensures Match(s, begin, end).MatchAt? ==>
      IsFirstRegion(s, begin, end, Match(s, begin, end).start, Match(s, begin, end).close)
    ensures Match(s, begin, end).NoMatch? <==> !HasRegion(s, begin, end)
  {
    FindFirst(s, begin, 0);
    var first := Find(s, begin, 0);
    if first.Some? {
      FindFirst(s, end, first.value + |begin|);
      var close := Find(s, end, first.value + |begin|);
      if close.Some? {
        assert first.value + |begin| <= close.value;
        assert OccursAt(s, begin, first.value) && OccursAt(s, end, close.value);
      }
    }
  }

  /** The first region is where `Match` finds it. */
  lemma MatchFirstRegion(s: string, begin: string, end: string, i: nat, j: nat)
    requires IsFirstRegion(s, begin, end, i, j)
    ensures Match(s, begin, end).MatchAt?
    ensures Match(s, begin, end).start == i && Match(s, begin, end).close == j
  {
    FindLeast(s, begin, 0, i);
    FindLeast(s, end, i + |begin|, j);
  }

  /** Text without a `begin` followed by an `end` is left as it is. */
  lemma SubRegionsNoRegion(s: string, begin: string, end: string, repl: string)
    requires |end| > 0
    ensures !HasRegion(s, begin, end) ==> SubRegions(s, begin, end, repl) == s
  {
    MatchIsFirstRegion(s, begin, end);
  }

  /** Text with a region has a first one. */
  lemma FirstRegionExists(s: string, begin: string, end: string)
    requires HasRegion(s, begin, end)
    ensures exists i: nat, j: nat :: IsFirstRegion(s, begin, end, i, j)
  {
    MatchIsFirstRegion(s, begin, end);
    var m := Match(s, begin, end);
    assert IsFirstRegion(s, begin, end, m.start, m.close);
  }

  /** The first region is replaced, the text before it is kept verbatim, and
      the rest is processed on its own from the end of the region on. */
  lemma SubRegionsFirstRegion(s: string, begin: string, end: string, repl: string, i: nat, j: nat)
    requires |end| > 0 && IsFirstRegion(s, begin, end, i, j)
    ensures SubRegions(s, begin, end, repl) == s[..i] + repl + SubRegions(s[j + |end|..], begin, end, repl)
  {
    MatchFirstRegion(s, begin, end, i, j);
    SubRegionsUnfold(s, begin, end, repl, i, j);
  }

  /** One step of the scan, once the region has been found. */
  lemma SubRegionsUnfold(s: string, begin: string, end: string, repl: string, i: nat, j: nat)
    requires |end| > 0 && Match(s, begin, end).MatchAt?
    requires Match(s, begin, end).start == i && Match(s, begin, end).close == j
    ensures SubRegions(s, begin, end, repl) == s[..i] + repl + SubRegions(s[j + |end|..], begin, end, repl)
  {
  }

  /** The text before the first region is kept. */
  lemma SubRegionsKeepsPrefix(s: string, begin: string, end: string, repl: string, i: nat, j: nat)
    requires |end| > 0 && IsFirstRegion(s, begin, end, i, j)
    ensures var r := SubRegions(s, begin, end, repl); i <= |r| && r[..i] == s[..i]
  {
    SubRegionsFirstRegion(s, begin, end, repl, i, j);
    var rest := SubRegions(s[j + |end|..], begin, end, repl);
    assert (s[..i] + repl + rest)[..i] == s[..i];
  }

  /** Inside `"\n" + badges + "\n" + end`, with badges that contain no `end`
      and an `end` without newlines, the only `end` is the one that closes
      it. */
  lemma EndOnlyAtClose(t: string, o: nat, badges: string, end: string)
    requires |end| > 0 && '\n' !in end
    requires forall k :: !OccursAt(badges, end, k)
    requires o + |"\n" + badges + "\n" + end| <= |t|
    requires t[o..o + |"\n" + badges + "\n" + end|] == "\n" + badges + "\n" + end
    ensures forall k :: o <= k < o + |badges| + 2 ==> !OccursAt(t, end, k)
    ensures OccursAt(t, end, o + |badges| + 2)
  {
    var m := "\n" + badges + "\n" + end;
    assert m[|m| - |end|..] == end;
    assert t[o + |badges| + 2..o + |m|] == t[o..o + |m|][|m| - |end|..];
    assert forall x :: 0 <= x < |m| ==> t[o + x] == m[x];
    forall k | o <= k < o + |badges| + 2
      ensures !OccursAt(t, end, k)
    {
      var q := k - o;
      if k + |end| <= |t| {
        var w := t[k..k + |end|];
        if q == 0 {
          assert w[0] == m[0] == '\n';
          assert end[0] in end;
        } else if q + |end| <= 1 + |badges| {
          assert w == badges[q - 1..q - 1 + |end|] by {
            forall p | 0 <= p < |end| ensures w[p] == badges[q - 1 + p] {
              assert w[p] == m[q + p];
            }
          }
          assert !OccursAt(badges, end, q - 1);
        } else {
          var p := 1 + |badges| - q;
          assert w[p] == m[1 + |badges|] == '\n';
          assert end[p] in end;
        }
      }
    }
  }

  /** Two texts that agree on their first `n` characters have the same
      occurrences of a pattern that ends within them. */
  lemma SharedPrefixOccurs(t: string, s: string, n: nat, pat: string, k: nat)
    requires n <= |t| && n <= |s| && t[..n] == s[..n] && k + |pat| <= n
    ensures OccursAt(t, pat, k) <==> OccursAt(s, pat, k)
  {
    assert t[k..k + |pat|] == t[..n][k..k + |pat|];
    assert s[k..k + |pat|] == s[..n][k..k + |pat|];
  }

  /** Text that agrees with `s` up to and including its first `begin` has
      that `begin` first too. */
  lemma FirstBeginKept(s: string, t: string, begin: string, i: nat)
    requires OccursAt(s, begin, i) && forall k :: 0 <= k < i ==> !OccursAt(s, begin, k)
    requires i + |begin| <= |t| && t[..i + |begin|] == s[..i + |begin|]
    ensures OccursAt(t, begin, i) && forall k :: 0 <= k < i ==> !OccursAt(t, begin, k)
  {
    forall k | 0 <= k < i ensures !OccursAt(t, begin, k) {
      SharedPrefixOccurs(t, s, i + |begin|, begin, k);
    }
    SharedPrefixOccurs(t, s, i + |begin|, begin, i);
  }

  /** After one rewrite with `begin + "\n" + badges + "\n" + end`, that
      replacement is itself the first region of the result, provided the
      badges contain no `end`. */
  lemma ReplacedIsFirstRegion(s: string, begin: string, end: string, badges: string, i: nat, j: nat)
    requires |end| > 0 && '\n' !in end && forall k :: !OccursAt(badges, end, k)
    requires IsFirstRegion(s, begin, end, i, j)
    ensures var repl := begin + "\n" + badges + "\n" + end;
      var t := s[..i] + repl + SubRegions(s[j + |end|..], begin, end, repl);
      IsFirstRegion(t, begin, end, i, i + |repl| - |end|)
  {
    var m := "\n" + badges + "\n" + end;
    var repl := begin + "\n" + badges + "\n" + end;
    assert repl == begin + m;
    var y := SubRegions(s[j + |end|..], begin, end, repl);
    var t := s[..i] + repl + y;
    assert t == (s[..i] + begin) + m + y;
    assert t[..i + |begin|] == s[..i + |begin|];
    FirstBeginKept(s, t, begin, i);
    assert t[i + |begin|..i + |begin| + |m|] == m;
    EndOnlyAtClose(t, i + |begin|, badges, end);
  }

  /** The second rewrite replaces the first region of the first rewrite's
      output by the same text and goes on with the rewritten rest. */
  lemma RewriteTwiceFirstRegion(s: string, begin: string, end: string, badges: string, i: nat, j: nat)
    requires |end| > 0 && '\n' !in end && forall k :: !OccursAt(badges, end, k)
    requires IsFirstRegion(s, begin, end, i, j)
    ensures var repl := begin + "\n" + badges + "\n" + end;
      var rest := SubRegions(s[j + |end|..], begin, end, repl);
      SubRegions(s[..i] + repl + rest, begin, end, repl) == s[..i] + repl + SubRegions(rest, begin, end, repl)
  {
    var repl := begin + "\n" + badges + "\n" + end;
    var rest := SubRegions(s[j + |end|..], begin, end, repl);
    var t := s[..i] + repl + rest;
    ReplacedIsFirstRegion(s, begin, end, badges, i, j);
    var close := i + |repl| - |end|;
    SubRegionsFirstRegion(t, begin, end, repl, i, close);
    assert t[..i] == s[..i];
    assert t[close + |end|..] == rest;
  }

  /** Rewriting twice with `begin + "\n" + badges + "\n" + end` gives the
      same text as rewriting once, provided the badges contain no `end`. */
  lemma {:induction false} SubRegionsIdempotent(s: string, begin: string, end: string, badges: string)
    requires |end| > 0 && '\n' !in end && forall k :: !OccursAt(badges, end, k)
    ensures var repl := begin + "\n" + badges + "\n" + end;
      SubRegions(SubRegions(s, begin, end, repl), begin, end, repl) == SubRegions(s, begin, end, repl)
    decreases |s|
  {
    var repl := begin + "\n" + badges + "\n" + end;
    var m := Match(s, begin, end);
    if m.MatchAt? {
      MatchIsFirstRegion(s, begin, end);
      SubRegionsFirstRegion(s, begin, end, repl, m.start, m.close);
      RewriteTwiceFirstRegion(s, begin, end, badges, m.start, m.close);
      SubRegionsIdempotent(s[m.close + |end|..], begin, end, badges);
    }
  }

  /** What a matched region of the README is replaced with. */
  function Replacement(badges: string): string {
    Begin + "\n" + badges + "\n" + End
  }

  lemma EndMarkerShape()
    ensures |End| > 0 && '\n' !in End && End[0] == '<'
  {
  }

  /** `update_readme`'s rewrite of the README `content`: every badge region
      is replaced by the markers around the badges. The replacement is a
      template in which Python would interpret backslash escapes; badges with
      a backslash are outside the model. A README without a begin marker
      followed by an end marker is left as it is, and the text before the
      first begin marker is always kept. */
  function UpdateReadme(content: string, badges: string): (r: string)
    requires '\\' !in badges
    ensures !HasRegion(content, Begin, End) ==> r == content
    ensures forall i: nat, j: nat :: IsFirstRegion(content, Begin, End, i, j) ==>
      i <= |r| && r[..i] == content[..i]
  {
    EndMarkerShape();
    SubRegionsNoRegion(content, Begin, End, Replacement(badges));
    forall i: nat, j: nat | IsFirstRegion(content, Begin, End, i, j)
      ensures var r := SubRegions(content, Begin, End, Replacement(badges)); i <= |r| && r[..i] == content[..i]
    {
      SubRegionsKeepsPrefix(content, Begin, End, Replacement(badges), i, j);
    }
    SubRegions(content, Begin, End, Replacement(badges))
  }

  /** In the README, the first badge region is replaced, the text before it
      is kept verbatim, and the rest is rewritten on its own. */
  lemma UpdateReadmeFirstRegion(s: string, badges: string, i: nat, j: nat)
    requires '\\' !in badges && IsFirstRegion(s, Begin, End, i, j)
    ensures UpdateReadme(s, badges) == s[..i] + Replacement(badges) + UpdateReadme(s[j + |End|..], badges)
  {
    EndMarkerShape();
    SubRegionsFirstRegion(s, Begin, End, Replacement(badges), i, j);
  }

  /** Rewriting the README twice with the same badges gives the same README
      as rewriting once, provided the badges contain no end marker. */
  lemma UpdateReadmeIdempotent(s: string, badges: string)
    requires '\\' !in badges && forall k :: !OccursAt(badges, End, k)
    ensures UpdateReadme(UpdateReadme(s, badges), badges) == UpdateReadme(s, badges)
  {
    EndMarkerShape();
    SubRegionsIdempotent(s, Begin, End, badges);
  }

  /** `main`: regenerates the badges and rewrites the README with them. A
      README without a marked region is written back unchanged; otherwise the
      text before the first region is kept, the region becomes the markers
      around the freshly generated badges, and the rest of the README is
      rewritten the same way. */
  function RefreshReadme(content: string, encodedSystemVersion: string, encodedDate: string): (r: string)
    requires '\\' !in encodedSystemVersion && '\\' !in encodedDate
    ensures !HasRegion(content, Begin, End) ==> r == content
  {
    NoBackslashInBadges(encodedSystemVersion, encodedDate);
    UpdateReadme(content, GenerateBadges(encodedSystemVersion, encodedDate))
  }

  /** A README with a marked region gets the generated badges: the text before
      the first region is kept, the region becomes the markers around the
      three badge lines, and the rest of the README is refreshed the same
      way. */
  lemma RefreshReadmeFirstRegion(content: string, encodedSystemVersion: string, encodedDate: string, i: nat, j: nat)
    requires '\\' !in encodedSystemVersion && '\\' !in encodedDate
    requires IsFirstRegion(content, Begin, End, i, j)
    ensures RefreshReadme(content, encodedSystemVersion, encodedDate)
      == content[..i] + Replacement(GenerateBadges(encodedSystemVersion, encodedDate))
         + RefreshReadme(content[j + |End|..], encodedSystemVersion, encodedDate)
  {
    var badges := GenerateBadges(encodedSystemVersion, encodedDate);
    NoBackslashInBadges(encodedSystemVersion, encodedDate);
    var rest := content[j + |End|..];
    assert RefreshReadme(content, encodedSystemVersion, encodedDate) == UpdateReadme(content, badges);
    assert RefreshReadme(rest, encodedSystemVersion, encodedDate) == UpdateReadme(rest, badges);
    UpdateReadmeFirstRegion(content, badges, i, j);
  }

  /** A character occurs in a line framed by two texts only if it occurs in
      one of the three. */
  lemma NotInFramed(c: char, prefix: string, x: string, suffix: string)
    requires c !in prefix && c !in x && c !in suffix
    ensures c !in prefix + x + suffix
  {
  }

  /** A character other than newline occurs in three lines joined by
      newlines only if it occurs in one of them. */
  lemma NotInJoined(c: char, a: string, b: string, d: string)
    requires c != '\n' && c !in a && c !in b && c !in d
    ensures c !in a + "\n" + b + "\n" + d
  {
    assert "\n" == ['\n'];
  }

  /** A character other than newline that none of the fixed parts contains
      occurs in the generated badges only if a quoted text contains it. */
  lemma GeneratedChar(c: char, encodedSystemVersion: string, encodedDate: string)
    requires c != '\n' && c !in StarsBadge
    requires c !in MacosBadgePrefix && c !in MacosBadgeSuffix
    requires c !in TestedBadgePrefix && c !in TestedBadgeSuffix
    requires c !in encodedSystemVersion && c !in encodedDate
    ensures c !in GenerateBadges(encodedSystemVersion, encodedDate)
  {
    StaticBadgesStrip();
    NotInFramed(c, MacosBadgePrefix, encodedSystemVersion, MacosBadgeSuffix);
    NotInFramed(c, TestedBadgePrefix, encodedDate, TestedBadgeSuffix);
    NotInJoined(c, StarsBadge, MacosBadge(encodedSystemVersion), TestedBadge(encodedDate));
  }

  /** The generated badges contain a backslash or a `<` only where a quoted
      text does. */
  lemma NoBackslashInBadges(encodedSystemVersion: string, encodedDate: string)
    requires '\\' !in encodedSystemVersion && '\\' !in encodedDate
    ensures '\\' !in GenerateBadges(encodedSystemVersion, encodedDate)
    ensures '<' !in encodedSystemVersion && '<' !in encodedDate ==>
      '<' !in GenerateBadges(encodedSystemVersion, encodedDate)
  {
    StarsBadgePlain();
    FixedPartsPlain();
    GeneratedChar('\\', encodedSystemVersion, encodedDate);
    if '<' !in encodedSystemVersion && '<' !in encodedDate {
      GeneratedChar('<', encodedSystemVersion, encodedDate);
    }
  }

  /** A text without `<` contains no end marker. */
  lemma NoEndWithoutAngle(g: string)
    requires '<' !in g
    ensures forall k :: !OccursAt(g, End, k)
  {
    forall k: nat ensures !OccursAt(g, End, k) {
      if k + |End| <= |g| {
        assert End[0] == '<' && g[k + 0] != End[0];
      }
    }
  }

  /** Running the script twice with the same version and date leaves the
      README as one run left it, since URL quoting turns `<` and backslash
      into percent escapes. */
  lemma RefreshReadmeIdempotent(content: string, encodedSystemVersion: string, encodedDate: string)
    requires '\\' !in encodedSystemVersion && '\\' !in encodedDate
    requires '<' !in encodedSystemVersion && '<' !in encodedDate
    ensures RefreshReadme(RefreshReadme(content, encodedSystemVersion, encodedDate), encodedSystemVersion, encodedDate)
         == RefreshReadme(content, encodedSystemVersion, encodedDate)
  {
    var g := GenerateBadges(encodedSystemVersion, encodedDate);
    NoBackslashInBadges(encodedSystemVersion, encodedDate);
    NoEndWithoutAngle(g);
    UpdateReadmeIdempotent(content, g);
  }
}
