/**
 * The two pure helpers of src/Helpers.php the feed depends on: the relative-time phrase shown
 * next to every update, and the rewriting of a YouTube link into a privacy-enhanced embed URL.
 * Timestamps are integer seconds since the epoch.
 */
module Helpers {
  import opened Strings

  // ---------------------------------------------------------------------------
  // relativeTime

  /** The $intervals table, largest unit first: (seconds per unit, unit name). */
  const Intervals: seq<(nat, string)> :=
    [(31536000, "year"), (2592000, "month"), (604800, "week"), (86400, "day"), (3600, "hour"), (60, "minute")]

  /** The phrase for a count of whole units: "yesterday" for one day, otherwise
      "<count> <unit>[s] ago". */
  function Phrase(count: nat, name: string): (r: string)
    requires count >= 1
    ensures r == "yesterday" <==> name == "day" && count == 1
    ensures r != "yesterday" ==> |r| >= 1 && IsDigit(r[0]) && EndsWith(r, " ago")
  {
    if name == "day" && count == 1 then "yesterday"
    else
      var n := NatToString(count);
      var r := n + " " + name + (if count > 1 then "s" else "") + " ago";
      assert r[0] == n[0];
      assert r[|r| - 4..] == " ago";
      r
  }

  /** The foreach over $intervals: the first unit of which the difference holds at least one
      whole multiple decides the phrase; the closing 'just now' is what an exhausted table gives. */
  function FirstUnitPhrase(diff: nat, intervals: seq<(nat, string)>): (r: string)
    requires forall k :: 0 <= k < |intervals| ==> intervals[k].0 > 0
    ensures r != "just now" && r != "yesterday" ==> |r| >= 1 && IsDigit(r[0]) && EndsWith(r, " ago")
  {
    if intervals == [] then "just now"
    else
      var count := diff / intervals[0].0;
      if count >= 1 then Phrase(count, intervals[0].1)
      else FirstUnitPhrase(diff, intervals[1..])
  }

  /** relativeTime($timestamp, $now) on epoch seconds. */
  function RelativeTime(timestamp: int, now: int): (r: string)
    ensures r != "just now" && r != "yesterday" ==> |r| >= 1 && IsDigit(r[0]) && EndsWith(r, " ago")
  {
    var diff := now - timestamp;
    if diff < 60 then "just now" else FirstUnitPhrase(diff, Intervals)
  }

  /** An independent statement of the unit choice: the largest unit not longer than the
      difference. */
  function UnitFor(diff: int): (unit: (nat, string))
    requires diff >= 60
    ensures 60 <= unit.0 <= diff
    ensures unit in Intervals
  {
    if diff >= 31536000 then (31536000, "year")
    else if diff >= 2592000 then (2592000, "month")
    else if diff >= 604800 then (604800, "week")
    else if diff >= 86400 then (86400, "day")
    else if diff >= 3600 then (3600, "hour")
    else (60, "minute")
  }

  /** For a difference of a minute or more, the phrase uses the largest unit that fits and
      the whole number of such units, rounded down. */
  lemma RelativeTimeUsesLargestUnit(timestamp: int, now: int)
    requires now - timestamp >= 60
    ensures (now - timestamp) / UnitFor(now - timestamp).0 >= 1
    ensures RelativeTime(timestamp, now) ==
      Phrase((now - timestamp) / UnitFor(now - timestamp).0, UnitFor(now - timestamp).1)
  {
    var diff := now - timestamp;
    var ivs := Intervals;
    if diff < 31536000 {
      assert FirstUnitPhrase(diff, ivs) == FirstUnitPhrase(diff, ivs[1..]);
      if diff < 2592000 {
        assert FirstUnitPhrase(diff, ivs[1..]) == FirstUnitPhrase(diff, ivs[2..]);
        if diff < 604800 {
          assert FirstUnitPhrase(diff, ivs[2..]) == FirstUnitPhrase(diff, ivs[3..]);
          if diff < 86400 {
            assert FirstUnitPhrase(diff, ivs[3..]) == FirstUnitPhrase(diff, ivs[4..]);
            if diff < 3600 {
              assert FirstUnitPhrase(diff, ivs[4..]) == FirstUnitPhrase(diff, ivs[5..]);
            }
          }
        }
      }
    }
  }

  /** "just now" appears exactly when less than a minute has elapsed, which includes a
      timestamp in the future; the closing 'just now' after the loop is never reached. */
  lemma JustNowIffUnderAMinute(timestamp: int, now: int)
    ensures RelativeTime(timestamp, now) == "just now" <==> now - timestamp < 60
  {
    if now - timestamp >= 60 {
      RelativeTimeUsesLargestUnit(timestamp, now);
      var unit := UnitFor(now - timestamp);
      var r := Phrase((now - timestamp) / unit.0, unit.1);
      if r != "yesterday" {
        assert IsDigit(r[0]);
      }
    }
  }

  /** The plural "s" is added exactly when the count is larger than one. */
  lemma PluralIffMoreThanOne(timestamp: int, now: int)
    requires now - timestamp >= 60
    requires RelativeTime(timestamp, now) != "yesterday"
    ensures var count := (now - timestamp) / UnitFor(now - timestamp).0;
            EndsWith(RelativeTime(timestamp, now), "s ago") <==> count > 1
  {
    RelativeTimeUsesLargestUnit(timestamp, now);
    var unit := UnitFor(now - timestamp);
    var count := (now - timestamp) / unit.0;
    var n := NatToString(count);
    var r := Phrase(count, unit.1);
    assert unit.1 != "day" || count != 1;
    if count > 1 {
      assert r == n + " " + unit.1 + "s" + " ago";
      assert r[|r| - 5..] == "s ago";
    } else {
      assert r == n + " " + unit.1 + "" + " ago";
      assert r[|r| - 5] == unit.1[|unit.1| - 1];
    }
  }

  /** The phrases the documentation promises for a minute, one day and two days. */
  lemma RelativeTimeExamples()
    ensures RelativeTime(0, 59) == "just now"
    ensures RelativeTime(100, 0) == "just now"
    ensures RelativeTime(0, 60) == "1 minute ago"
    ensures RelativeTime(0, 86400) == "yesterday"
    ensures RelativeTime(0, 172800) == "2 days ago"
  {
    OneMinuteExample();
    YesterdayExample();
    TwoDaysExample();
  }

  lemma OneMinuteExample()
    ensures RelativeTime(0, 60) == "1 minute ago"
  {
    MinutesAgo(0, 60);
    assert NatToString(1) == "1";
  }

  /** Between one minute and one hour, the phrase counts minutes. */
  lemma MinutesAgo(timestamp: int, now: int)
    requires 60 <= now - timestamp < 3600
    ensures RelativeTime(timestamp, now) == Phrase((now - timestamp) / 60, "minute")
  {
    RelativeTimeUsesLargestUnit(timestamp, now);
  }

  lemma YesterdayExample()
    ensures RelativeTime(0, 86400) == "yesterday"
  {
    RelativeTimeUsesLargestUnit(0, 86400);
  }

  lemma TwoDaysExample()
    ensures RelativeTime(0, 172800) == "2 days ago"
  {
    DaysAgo(0, 172800);
    TwoDaysPhrase();
  }

  /** Between two and seven days, the phrase counts days. */
  lemma DaysAgo(timestamp: int, now: int)
    requires 2 * 86400 <= now - timestamp < 604800
    ensures RelativeTime(timestamp, now) == Phrase((now - timestamp) / 86400, "day")
  {
    RelativeTimeUsesLargestUnit(timestamp, now);
  }

  lemma TwoDaysPhrase()
    ensures Phrase(2, "day") == "2 days ago"
  {
    assert NatToString(2) == "2";
  }

  // ---------------------------------------------------------------------------
  // youtubeEmbedUrl

  /** The literal text of each of the three patterns, in the order they are tried. */
  const Markers: seq<string> := ["youtube.com/watch?v=", "youtu.be/", "youtube.com/embed/"]

  const EmbedPrefix: string := "https://www.youtube-nocookie.com/embed/"

  /** The character class [a-zA-Z0-9_-] of the captured video id. */
  predicate IsIdChar(c: char)
  {
    'a' <= c <= 'z' || 'A' <= c <= 'Z' || '0' <= c <= '9' || c == '_' || c == '-'
  }

  /** A non-empty run of id characters: what the capture group accepts. */
  predicate IsVideoId(id: string)
  {
    |id| >= 1 && forall k :: 0 <= k < |id| ==> IsIdChar(id[k])
  }

  /** A pattern matches at position i: the marker occurs there and at least one id character
      follows it. */
  predicate MatchesAt(url: string, marker: string, i: int)
  {
    OccursAt(url, marker, i) && i + |marker| < |url| && IsIdChar(url[i + |marker|])
  }

  /** The leftmost position at or after `from` where the pattern matches, as preg_match scans. */
  function FirstMatchFrom(url: string, marker: string, from: nat): (r: Option<nat>)
    requires from <= |url|
    ensures r.Some? ==> from <= r.value && MatchesAt(url, marker, r.value)
    ensures r.Some? ==> forall k :: from <= k < r.value ==> !MatchesAt(url, marker, k)
    ensures r.None? ==> forall k :: from <= k ==> !MatchesAt(url, marker, k)
    decreases |url| - from
  {
    if MatchesAt(url, marker, from) then Some(from)
    else if from == |url| then None
    else FirstMatchFrom(url, marker, from + 1)
  }

  /** The greedy capture: the longest run of id characters starting at j. */
  function IdRun(url: string, j: nat): (id: string)
    requires j <= |url|
    ensures j + |id| <= |url| && id == url[j..j + |id|]
    ensures forall k :: 0 <= k < |id| ==> IsIdChar(id[k])
    ensures j + |id| == |url| || !IsIdChar(url[j + |id|])
    decreases |url| - j
  {
    if j < |url| && IsIdChar(url[j]) then
      var rest := IdRun(url, j + 1);
      assert url[j..j + 1 + |rest|] == [url[j]] + rest;
      [url[j]] + rest
    else []
  }

  /** The video id the pattern captures, if it matches anywhere in the URL. */
  function CaptureWith(url: string, marker: string): (id: Option<string>)
    ensures id.Some? ==> IsVideoId(id.value)
    ensures id.None? <==> forall k :: !MatchesAt(url, marker, k)
  {
    match FirstMatchFrom(url, marker, 0)
    case None => None
    case Some(i) => Some(IdRun(url, i + |marker|))
  }

  /** The foreach over $patterns: the first pattern that matches decides. */
  function FirstCapture(url: string, markers: seq<string>): (id: Option<string>)
    ensures id.Some? ==> IsVideoId(id.value)
  {
    if markers == [] then None
    else match CaptureWith(url, markers[0])
      case Some(id) => Some(id)
      case None => FirstCapture(url, markers[1..])
  }

  /** youtubeEmbedUrl($url). */
  function YoutubeEmbedUrl(url: string): (r: Option<string>)
    ensures r.Some? ==> StartsWith(r.value, EmbedPrefix) && IsVideoId(r.value[|EmbedPrefix|..])
  {
    match FirstCapture(url, Markers)
    case None => None
    case Some(id) => Some(EmbedPrefix + id)
  }

  /** The result is null exactly when none of the three patterns matches anywhere. */
  lemma {:induction false} FirstCaptureNoneIff(url: string, markers: seq<string>)
    ensures FirstCapture(url, markers).None? <==>
      forall m, k :: m in markers ==> !MatchesAt(url, m, k)
  {
    if markers != [] {
      FirstCaptureNoneIff(url, markers[1..]);
      assert forall m :: m in markers <==> m == markers[0] || m in markers[1..];
    }
  }

  lemma YoutubeNoneIffNoPattern(url: string)
    ensures YoutubeEmbedUrl(url).None? <==> forall m, k :: m in Markers ==> !MatchesAt(url, m, k)
  {
    FirstCaptureNoneIff(url, Markers);
  }

  /** On a match, the result is the nocookie embed prefix followed by the maximal run of id
      characters after the leftmost occurrence of the first pattern that matches anywhere. */
  lemma YoutubeFirstPatternWins(url: string, n: nat)
    requires n < |Markers|
    requires forall j, k :: 0 <= j < n ==> !MatchesAt(url, Markers[j], k)
    requires exists k :: MatchesAt(url, Markers[n], k)
    ensures FirstMatchFrom(url, Markers[n], 0).Some?
    ensures var i := FirstMatchFrom(url, Markers[n], 0).value;
            YoutubeEmbedUrl(url) == Some(EmbedPrefix + IdRun(url, i + |Markers[n]|))
  {
    var ms := Markers;
    var id := CaptureWith(url, ms[n]);
    assert id.Some?;
    if n == 0 {
      assert FirstCapture(url, ms) == id;
    } else {
      assert CaptureWith(url, ms[0]).None?;
      assert FirstCapture(url, ms) == FirstCapture(url, ms[1..]);
      if n == 1 {
        assert FirstCapture(url, ms[1..]) == id;
      } else {
        assert CaptureWith(url, ms[1]).None?;
        assert FirstCapture(url, ms[1..]) == FirstCapture(url, ms[2..]);
        assert FirstCapture(url, ms[2..]) == id;
      }
    }
  }

  /** Where a pattern matches, the URL holds the marker's characters. */
  lemma MatchCharAt(url: string, marker: string, k: int, j: int)
    requires MatchesAt(url, marker, k) && 0 <= j < |marker|
    ensures url[k + j] == marker[j]
  {
    assert url[k + j] == url[k..k + |marker|][j];
  }

  /** When everything from j on is an id character, the capture runs to the end. */
  lemma {:induction false} IdRunToEnd(url: string, j: nat)
    requires j <= |url|
    requires forall k :: j <= k < |url| ==> IsIdChar(url[k])
    ensures IdRun(url, j) == url[j..]
    decreases |url| - j
  {
    if j < |url| {
      IdRunToEnd(url, j + 1);
      assert url[j..] == [url[j]] + url[j + 1..];
    }
  }

  /** Positions of an id-only tail past a fixed prefix hold neither '.' nor '?'. */
  lemma VideoIdChars(prefix: string, id: string, k: int)
    requires IsVideoId(id) && |prefix| <= k < |prefix| + |id|
    ensures (prefix + id)[k] == id[k - |prefix|]
    ensures (prefix + id)[k] != '.' && (prefix + id)[k] != '?' && (prefix + id)[k] != '/'
  {
    assert IsIdChar(id[k - |prefix|]);
  }

  /** A short link "https://youtu.be/<id>" becomes the nocookie embed URL of the same id. */
  lemma YoutubeShortLink(id: string)
    requires IsVideoId(id)
    ensures YoutubeEmbedUrl("https://youtu.be/" + id) == Some(EmbedPrefix + id)
  {
    var prefix := "https://youtu.be/";
    var url := prefix + id;
    forall k
      ensures !MatchesAt(url, Markers[0], k)
    {
      ShortLinkHasNoWatchMarker(id, k);
    }
    ShortLinkMatchesAtEight(id);
    forall k | 17 <= k < |url|
      ensures IsIdChar(url[k])
    {
      assert url[k] == id[k - 17];
    }
    IdRunToEnd(url, 17);
    assert url[17..] == id;
    YoutubeFirstPatternWins(url, 1);
  }

  lemma ShortLinkHasNoWatchMarker(id: string, k: int)
    requires IsVideoId(id)
    ensures !MatchesAt("https://youtu.be/" + id, Markers[0], k)
  {
    var prefix := "https://youtu.be/";
    var url := prefix + id;
    if MatchesAt(url, Markers[0], k) {
      MatchCharAt(url, Markers[0], k, 17);
      assert Markers[0][17] == '?';
      if k + 17 >= |prefix| {
        VideoIdChars(prefix, id, k + 17);
      }
      assert false;
    }
  }

  /** In a short link the "youtu.be/" marker first matches right after "https://". */
  lemma ShortLinkMatchesAtEight(id: string)
    requires IsVideoId(id)
    ensures FirstMatchFrom("https://youtu.be/" + id, Markers[1], 0) == Some(8)
  {
    var prefix := "https://youtu.be/";
    var url := prefix + id;
    assert url[8..17] == Markers[1];
    assert MatchesAt(url, Markers[1], 8);
    forall k | 0 <= k < 8
      ensures !MatchesAt(url, Markers[1], k)
    {
      if MatchesAt(url, Markers[1], k) {
        MatchCharAt(url, Markers[1], k, 0);
        assert false;
      }
    }
  }

  /** The embed URL this function produces is not itself recognised: none of the three markers
      occurs in "https://www.youtube-nocookie.com/embed/<id>", so the result there is null. */
  lemma YoutubeEmbedOfEmbedIsNull(id: string)
    requires IsVideoId(id)
    ensures YoutubeEmbedUrl(EmbedPrefix + id).None?
  {
    forall m, k | m in Markers
      ensures !MatchesAt(EmbedPrefix + id, m, k)
    {
      NoMarkerInEmbed(id, m, k);
    }
    YoutubeNoneIffNoPattern(EmbedPrefix + id);
  }

  /** The '?' of the first marker and the '.' of the other two have no counterpart at a
      position of the embed URL that would let the marker start with its 'y'. */
  lemma NoMarkerInEmbed(id: string, m: string, k: int)
    requires IsVideoId(id) && m in Markers
    ensures !MatchesAt(EmbedPrefix + id, m, k)
  {
    if m == Markers[0] {
      NoMarkerThroughChar(id, m, k, 17);
    } else if m == Markers[1] {
      NoMarkerThroughChar(id, m, k, 5);
    } else {
      NoMarkerThroughChar(id, m, k, 7);
    }
  }

  /** A marker that starts with 'y' and has a '?' or '.' at offset j, where neither dot of the
      prefix has a 'y' j places before it. */
  lemma NoMarkerThroughChar(id: string, m: string, k: int, j: nat)
    requires IsVideoId(id) && 0 < j < |m| && m[0] == 'y' && (m[j] == '?' || m[j] == '.')
    requires 11 - j < 0 || EmbedPrefix[11 - j] != 'y'
    requires 28 - j < 0 || EmbedPrefix[28 - j] != 'y'
    ensures !MatchesAt(EmbedPrefix + id, m, k)
  {
    var url := EmbedPrefix + id;
    if MatchesAt(url, m, k) {
      MatchCharAt(url, m, k, j);
      if k + j >= |EmbedPrefix| {
        VideoIdChars(EmbedPrefix, id, k + j);
        assert false;
      }
      assert url[k + j] == EmbedPrefix[k + j];
      EmbedPrefixDots(k + j);
      MatchCharAt(url, m, k, 0);
      assert false;
    }
  }

  /** The embed prefix has no '?', and its only dots are those of "www." and ".com". */
  lemma EmbedPrefixDots(i: int)
    requires 0 <= i < |EmbedPrefix| && (EmbedPrefix[i] == '.' || EmbedPrefix[i] == '?')
    ensures i == 11 || i == 28
  {
  }

  /** Hence feeding a produced embed URL back in gives null. */
  lemma YoutubeEmbedNotReembedded(url: string)
    requires YoutubeEmbedUrl(url).Some?
    ensures YoutubeEmbedUrl(YoutubeEmbedUrl(url).value).None?
  {
    var e := YoutubeEmbedUrl(url).value;
    var id := e[|EmbedPrefix|..];
    assert e == EmbedPrefix + id;
    YoutubeEmbedOfEmbedIsNull(id);
  }
}
