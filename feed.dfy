/**
 * update.php: the feed generator run by cron. It resolves where the feed file goes, reads the
 * live game and its updates, shapes one entry per update and writes the document. JSON
 * encoding, the ISO-8601 formatting of times and the file system are not modelled: the
 * document is a value, times are epoch seconds, and writing is an outcome.
 */
module Feed {
  import opened Strings
  import Env
  import Helpers
  import opened Tables

  const OutputPathKey: string := "JSON_OUTPUT_PATH"
  const DefaultOutputPath: string := "./public/current.json"

  /** The path made absolute by prefixing the script's directory when it does not start
      with '/'; there is no normalisation of "." or "..". */
  function ResolveOutputPath(configured: string, scriptDir: string): (path: string)
    ensures EndsWith(path, configured)
    ensures StartsWith(configured, "/") ==> path == configured
    ensures !StartsWith(configured, "/") ==> StartsWith(path, scriptDir + "/") && |path| == |scriptDir| + 1 + |configured|
  {
    if StartsWith(configured, "/") then configured
    else
      var path := scriptDir + "/" + configured;
      assert path[|path| - |configured|..] == configured;
      assert path[..|scriptDir + "/"|] == scriptDir + "/";
      path
  }

  /** Resolving twice changes nothing when the script's directory is absolute: the first
      resolution already yields an absolute path. */
  lemma ResolveOutputPathIdempotent(configured: string, scriptDir: string)
    requires StartsWith(scriptDir, "/")
    ensures StartsWith(ResolveOutputPath(configured, scriptDir), "/")
    ensures ResolveOutputPath(ResolveOutputPath(configured, scriptDir), scriptDir) ==
            ResolveOutputPath(configured, scriptDir)
  {
    var path := ResolveOutputPath(configured, scriptDir);
    if !StartsWith(configured, "/") {
      assert path[0] == scriptDir[0];
    }
  }

  /** Env::get('JSON_OUTPUT_PATH', './public/current.json'), resolved. */
  function OutputPath(env: Env.Environment, scriptDir: string): (path: string)
    reads env
    ensures OutputPathKey !in env.vars ==> path == scriptDir + "/" + DefaultOutputPath
    ensures OutputPathKey in env.vars ==> EndsWith(path, env.vars[OutputPathKey])
  {
    assert DefaultOutputPath[0] != '/';
    ResolveOutputPath(env.Get(OutputPathKey, Some(DefaultOutputPath)).value, scriptDir)
  }

  // ---------------------------------------------------------------------------
  // The document

  /** A key of an entry: missing, present with null, or present with a string. */
  datatype Field = Absent | Null | Str(s: string)

  function FieldOf(v: Option<string>): Field
  {
    if v.Some? then Str(v.value) else Null
  }

  datatype Entry = Entry(id: int, kind: string, createdAt: int, relativeTime: string,
                         html: Field, url: Field, embedUrl: Field)

  datatype GameBlock = GameBlock(title: string, homeTeam: string, awayTeam: string,
                                 scoreHome: int, scoreAway: int,
                                 homeLineup: string, awayLineup: string, lastUpdated: int)

  datatype Document =
    | Idle(status: string, cacheControl: string, generatedAt: int)
    | Live(cacheControl: string, generatedAt: int, game: GameBlock, updates: seq<Entry>)

  datatype FeedOutcome =
    | Written(path: string, doc: Document)
    /** An exception reached the catch block: the error outcome (a 500 response on the web, exit status 1 under the command line), and no file written. */
    | ErrorResponse(message: string)
    /** An uncaught error ended the script: nothing written. */
    | Fatal

  /** A youtube row without a url: passing null to youtubeEmbedUrl(string) raises a TypeError,
      which is not an Exception and so is not caught. */
  predicate Crashes(u: Update): (r: bool)
    ensures r ==> !WellShaped(u)
  {
    u.kind == "youtube" && u.url.None?
  }

  /** The shaping of one update: the base fields, then the type's own fields. */
  function ShapeEntry(u: Update, now: int): (e: Entry)
    ensures e.id == u.id && e.kind == u.kind && e.createdAt == u.createdAt
    ensures e.relativeTime == Helpers.RelativeTime(u.createdAt, now)
    ensures e.html != Absent <==> u.kind == "html"
    ensures u.kind == "html" ==> e.html == FieldOf(u.content)
    ensures e.url != Absent <==> u.kind == "nhl_goal" || u.kind == "youtube"
    ensures e.url != Absent ==> e.url == FieldOf(u.url)
    ensures e.embedUrl != Absent ==>
      u.kind == "youtube" && u.url.Some? && e.embedUrl.Str? &&
      Helpers.YoutubeEmbedUrl(u.url.value) == Some(e.embedUrl.s) &&
      StartsWith(e.embedUrl.s, Helpers.EmbedPrefix)
    ensures u.kind == "youtube" && u.url.Some? && Helpers.YoutubeEmbedUrl(u.url.value).Some? ==>
      e.embedUrl != Absent
  {
    var base := Entry(u.id, u.kind, u.createdAt, Helpers.RelativeTime(u.createdAt, now), Absent, Absent, Absent);
    if u.kind == "html" then base.(html := FieldOf(u.content))
    else if u.kind == "nhl_goal" then base.(url := FieldOf(u.url))
    else if u.kind == "youtube" then
      var embed := if u.url.Some? then Helpers.YoutubeEmbedUrl(u.url.value) else None;
      base.(url := FieldOf(u.url), embedUrl := if embed.Some? then Str(embed.value) else Absent)
    else base
  }

  /** The game block: scores as integers, a missing lineup as "". */
  function GameBlockOf(g: Game): (b: GameBlock)
    ensures b.title == g.title && b.homeTeam == g.homeTeam && b.awayTeam == g.awayTeam
    ensures b.scoreHome == g.scoreHome && b.scoreAway == g.scoreAway && b.lastUpdated == g.updatedAt
    ensures g.homeLineup.None? ==> b.homeLineup == ""
    ensures g.homeLineup.Some? ==> b.homeLineup == g.homeLineup.value
    ensures g.awayLineup.None? ==> b.awayLineup == ""
    ensures g.awayLineup.Some? ==> b.awayLineup == g.awayLineup.value
  {
    GameBlock(g.title, g.homeTeam, g.awayTeam, g.scoreHome, g.scoreAway,
              if g.homeLineup.Some? then g.homeLineup.value else "",
              if g.awayLineup.Some? then g.awayLineup.value else "",
              g.updatedAt)
  }

  /** An html row written by the admin pages is published with its stored markup, unchanged. */
  lemma WellShapedHtmlPublishedVerbatim(u: Update, now: int)
    requires WellShaped(u) && u.kind == "html"
    ensures ShapeEntry(u, now).html == Str(u.content.value)
    ensures ShapeEntry(u, now).url == Absent && ShapeEntry(u, now).embedUrl == Absent
  {
  }

  // ---------------------------------------------------------------------------
  // The script

  /** The foreach over the fetched updates. */
  method BuildEntries(fetched: seq<Update>, now: int) returns (entries: seq<Entry>, crashed: bool)
    ensures crashed <==> exists i :: 0 <= i < |fetched| && Crashes(fetched[i])
    ensures !crashed ==> |entries| == |fetched|
    ensures !crashed ==> forall i :: 0 <= i < |fetched| ==> entries[i] == ShapeEntry(fetched[i], now)
  {
    entries := [];
    var i := 0;
    while i < |fetched|
      invariant 0 <= i <= |fetched| && |entries| == i
      invariant forall k :: 0 <= k < i ==> !Crashes(fetched[k]) && entries[k] == ShapeEntry(fetched[k], now)
    {
      var update := fetched[i];
      if update.kind == "youtube" && update.url.None? {
        return entries, true;
      }
      entries := entries + [ShapeEntry(update, now)];
      i := i + 1;
    }
    crashed := false;
  }

  /** The script from line 38 on. `fault` says which statement throws: 0 the live-game query,
      1 the updates query, 2 the atomic write. */
  method GenerateFeed(db: Database, env: Env.Environment, scriptDir: string, now: int, fault: DbFault)
    returns (outcome: FeedOutcome)
    ensures outcome.Written? ==> outcome.path == OutputPath(env, scriptDir)
    ensures outcome.Written? ==> !Throws(fault, 0) && !Throws(fault, 2)
    ensures outcome.Written? && LiveGame(db.games).None? ==>
      outcome.doc == Idle("no_live_game", "no-store", now)
    ensures outcome.Written? && LiveGame(db.games).Some? ==>
      var fetched := UpdatesOf(db.updates, LiveGame(db.games).value.id);
      !Throws(fault, 1) &&
      outcome.doc.Live? && outcome.doc.cacheControl == "no-store" && outcome.doc.generatedAt == now &&
      outcome.doc.game == GameBlockOf(LiveGame(db.games).value) &&
      |outcome.doc.updates| == |fetched| &&
      forall i :: 0 <= i < |fetched| ==> outcome.doc.updates[i] == ShapeEntry(fetched[i], now)
    ensures outcome.Fatal? <==>
      !Throws(fault, 0) && LiveGame(db.games).Some? && !Throws(fault, 1) &&
      exists i :: 0 <= i < |UpdatesOf(db.updates, LiveGame(db.games).value.id)| &&
                  Crashes(UpdatesOf(db.updates, LiveGame(db.games).value.id)[i])
    ensures outcome.ErrorResponse? ==> fault.FailsAt? && outcome.message == fault.message
  {
    var outputPath := ResolveOutputPath(env.Get(OutputPathKey, Some(DefaultOutputPath)).value, scriptDir);
    if Throws(fault, 0) {
      return ErrorResponse(fault.message);
    }
    var liveGame := LiveGame(db.games);
    var data: Document;
    if liveGame.None? {
      data := Idle("no_live_game", "no-store", now);
    } else {
      if Throws(fault, 1) {
        return ErrorResponse(fault.message);
      }
      var updates := UpdatesOf(db.updates, liveGame.value.id);
      var processedUpdates, crashed := BuildEntries(updates, now);
      if crashed {
        assert exists i :: 0 <= i < |updates| && Crashes(updates[i]);
        assert updates == UpdatesOf(db.updates, LiveGame(db.games).value.id);
        return Fatal;
      }
      data := Live("no-store", now, GameBlockOf(liveGame.value), processedUpdates);
    }
    if Throws(fault, 2) {
      return ErrorResponse(fault.message);
    }
    outcome := Written(outputPath, data);
  }

  /** A feed over tables the admin pages wrote: the only ways not to write the file are a
      failing statement. */
  lemma {:induction false} AdminTablesAlwaysPublish(updates: seq<Update>, gameId: nat)
    requires forall i :: 0 <= i < |updates| ==> WellShaped(updates[i])
    ensures forall i :: 0 <= i < |UpdatesOf(updates, gameId)| ==> !Crashes(UpdatesOf(updates, gameId)[i])
  {
    var fetched := UpdatesOf(updates, gameId);
    forall i | 0 <= i < |fetched|
      ensures !Crashes(fetched[i])
    {
      var k :| 0 <= k < |updates| && updates[k] == fetched[i];
      assert WellShaped(updates[k]);
    }
  }
}
