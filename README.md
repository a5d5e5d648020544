# NJ Devils game-day feed, modelled in Dafny

This project models the core of a small PHP application that publishes a live game-day feed. An
operator logs in to an admin area, marks one game as live, edits its score and lineups and posts
timestamped updates: sanitised HTML snippets, NHL goal-visualiser links and YouTube links. A
generator (`update.php`) snapshots the live game and its updates into a JSON document that a
public page polls.

The modules follow the source files:

- `Strings` (`strings.dfy`) — the PHP string built-ins the rest relies on: `trim`/`rtrim` with
  PHP's default character set, `strtolower`, `stripos(...) === 0`, `empty()` (true for `""` and
  `"0"`), `?? ''`, `is_numeric` and the `(int)` cast, `implode`.
- `Sanitizer` (`src/Sanitizer.php`) — the allowlist HTML sanitiser, the href check and the
  per-context URL validator. libxml's parser and serialiser, the `removeJavaScript` regular
  expressions, `filter_var(FILTER_VALIDATE_URL)` and `parse_url`'s host are fields of a
  `Platform` value that every operation takes as a parameter.
- `Helpers` (`src/Helpers.php`) — `relativeTime` on epoch seconds and `youtubeEmbedUrl` with its
  three regular expressions written out as marker search plus an id run.
- `Env` (`src/Env.php`) — the `.env` line parser and the `Environment` class, whose `Load`
  keeps the first definition of each key and never overwrites a variable that is already set.
- `Auth` (`src/Auth.php`) — the `Session` class over the session map: start with periodic id
  regeneration, login, logout, the login guard with its remembered redirect, the CSRF token, and
  the flash messages the admin pages pass through the session.
- `Tables` — the two tables, `games` and `game_updates`, as a `Database` class over sequences in
  insertion order, with the statements the pages run (`UPDATE ... SET is_live`, `INSERT`,
  `DELETE`) as methods. A `DbFault` parameter names the statement, if any, that throws.
- `Feed` (`update.php`) — the output path, the shaping of each update and of the game block,
  and the whole run. The run ends with a written document, the error outcome (a 500 response on
  the web, exit status 1 from the command line) or an uncaught error.
- `UpdateInput` — the add-update validation switch that `admin/game.php` and
  `admin/updates.php` share. The two pages differ only in how they test for a missing field.
- `GameAdmin` (`admin/game.php`), `UpdatesAdmin` (`admin/updates.php`) and `UpdateDelete`
  (`admin/update_delete.php`) — one request to each page. Each request starts with the
  `_auth.php` guard (`Auth::requireAuth()`), then reads and clears the flash messages where the
  page does, then checks the CSRF token, then runs the posted action.

The properties proved include the following:

- the sanitiser's attribute pass keeps exactly the allowlisted attributes with safe hrefs;
- the corrected tree pass leaves only allowlisted elements and keeps all the text;
- a URL is accepted for a context exactly when its host is on that context's allowlist or is a
  subdomain of an entry on it;
- setting a game live leaves exactly that game live, and a failure rolls back every flag;
- every page keeps "at most one live game";
- a deleted update removes exactly one row;
- every row the admin pages insert has the shape the feed needs (exactly one of content/url,
  chosen by type), so the feed never hits the uncaught error;
- the `.env` parser round-trips `KEY=value` lines, and loading keeps the first definition;
- `relativeTime` uses the largest unit that fits and says "yesterday" only for one day;
- the embed URL is never re-embedded.

## Model

| member | source | states |
|---|---|---|
| Sanitizer.IsValidHref | src/Sanitizer.php:142-160 | an href is valid iff its trimmed form starts (case-insensitively) with none of the dangerous protocols and, if it contains "://", starts with "https://" |
| Sanitizer.HttpsHrefIsValid | src/Sanitizer.php:142-160 | every href whose trimmed form starts with "https://" in any case is valid |
| Sanitizer.NonHttpsAbsoluteHrefIsInvalid | src/Sanitizer.php:155-157 | an href containing "://" that does not start with "https://" is rejected |
| Sanitizer.SchemelessHrefIsValid | src/Sanitizer.php:142-160 | an href without any colon (a relative link) is valid |
| Sanitizer.ColonFreeLacksScheme | src/Sanitizer.php:146-152 | text without a colon cannot start with any of the dangerous protocols, which all end in ':' |
| Sanitizer.CleanAttributes | src/Sanitizer.php:114-137 | the attribute pass (collect, then remove by name) returns the specification function CleanedAttributes of the attributes |
| Sanitizer.CollectRemovals | src/Sanitizer.php:119-132 | the first loop collects exactly the lower-cased names of the rejected attributes, in order |
| Sanitizer.CleanedAttributes | src/Sanitizer.php:114-137 | every attribute left on an element was on it before and is not rejected: its lower-cased name is allowlisted for the tag and, for href, the value passes isValidHref |
| Sanitizer.RejectedIsListed | src/Sanitizer.php:119-132 | every attribute that is not allowlisted, or is an invalid href, has its name on the removal list |
| Sanitizer.ListedIsRejected | src/Sanitizer.php:119-132 | every name on the removal list comes from a rejected attribute |
| Sanitizer.CleanedAttributesAllowlist | src/Sanitizer.php:114-137 | after cleaning, only `a` keeps attributes, every kept attribute was present and is allowlisted for its tag, and every kept href is valid |
| Sanitizer.CleanedAttributesKeepsAccepted | src/Sanitizer.php:114-137 | with distinct attribute names, an attribute survives cleaning iff it was present and is not rejected |
| Sanitizer.SanitizeNode | src/Sanitizer.php:68-109 | the node pass returns SanitizedChildren, the source's tree pass as written |
| Sanitizer.SanitizedChildrenAppend | src/Sanitizer.php:73-93 | the node pass treats each child independently: sanitising a concatenation concatenates the results |
| Sanitizer.DirectChild | src/Sanitizer.php:73-104 | an allowed direct child is kept with cleaned attributes and recursively cleaned children; a disallowed element is replaced by its raw children; comments and other nodes are dropped; text is kept |
| Sanitizer.SanitizePreservesText | src/Sanitizer.php:68-109 | the tree pass as written keeps all the text of the input, in order: unwrapping keeps a removed element's text, and only non-text, non-element nodes are dropped |
| Sanitizer.SanitizedCleanWhenUnwrapsOnlyText | src/Sanitizer.php:68-109 | when every removed element holds only text, the result contains only allowlisted elements with clean attributes |
| Sanitizer.UnwrappedChildrenEscapeTheAllowlist | src/Sanitizer.php:95-108 | as written, an iframe inside a div is hoisted and kept: the output is not clean |
| Sanitizer.IntendedIsClean | src/Sanitizer.php:68-109 | the corrected pass always returns a forest of allowlisted elements with clean attributes |
| Sanitizer.IntendedPreservesText | src/Sanitizer.php:68-109 | the corrected pass keeps all the text of the input, in order |
| Sanitizer.IntendedAgreesWhenUnwrapsOnlyText | src/Sanitizer.php:68-109 | the corrected pass differs from the source's only on inputs whose removed elements contain elements |
| Sanitizer.IntendedFixesText | src/Sanitizer.php:85-88 | a forest of text nodes is returned unchanged |
| Sanitizer.CleanedElementIsClean | src/Sanitizer.php:77-83 | an allowlisted element with cleaned attributes over a clean forest is clean |
| Sanitizer.TrimmedOrNull | src/Sanitizer.php:62 | the result is null iff the output is blank; otherwise it is the trimmed output, which is non-empty |
| Sanitizer.Truncated | src/Sanitizer.php:31-34 | the input is cut to its first 1000 bytes; shorter input is unchanged |
| Sanitizer.SanitizedHtml | src/Sanitizer.php:25-63 | null and blank input give null; any result is non-empty and trimmed |
| Sanitizer.SanitizeHtml | src/Sanitizer.php:25-63 | the method (serialising each child in a loop) returns SanitizedHtml |
| Sanitizer.SerializeEach | src/Sanitizer.php:50-57 | the loop concatenates the serialisation of each wrapper child |
| Sanitizer.SanitizedHtmlIntended | src/Sanitizer.php:25-63 | the corrected sanitiser, which the source does not run: null and blank input give null; any result is non-empty and trimmed |
| Sanitizer.IntendedHtmlComesFromCleanForest | src/Sanitizer.php:25-63 | the corrected sanitiser's output is the emission of a clean forest holding all the parsed text |
| Sanitizer.CutBeforeParse | src/Sanitizer.php:31-34 | input longer than 1000 bytes sanitises exactly like its first 1000 bytes |
| Sanitizer.DomainAllowed | src/Sanitizer.php:230-238 | a domain is allowed iff it equals an allowlist entry or ends with "." plus that entry |
| Sanitizer.DomainMatchesAtLabelBoundary | src/Sanitizer.php:233 | a domain matches an entry iff the entry is a suffix that starts the domain or follows a dot |
| Sanitizer.NoMatchWithoutDot | src/Sanitizer.php:233 | a prefix not ending in a dot never makes a match (evilnhl.com is not nhl.com) |
| Sanitizer.NhlExamples | src/Sanitizer.php:206-208 | evilnhl.com is refused; x.nhl.com and www.nhl.com are accepted |
| Sanitizer.SanitizeUrl | src/Sanitizer.php:186-244 | null is refused; an accepted URL is the trimmed input, non-empty, at most 1000 bytes, https in any case and valid for filter_var; for nhl_goal and youtube its host is on the allowlist; for other contexts those checks are also sufficient |
| Sanitizer.SanitizeUrlDomainIff | src/Sanitizer.php:205-243 | for a well-formed https URL with a host, nhl_goal and youtube accept it iff the lower-cased host is allowed |
| Helpers.Phrase | src/Helpers.php:55-61 | the phrase is "yesterday" iff the unit is day and the count is 1; otherwise it starts with a digit and ends with " ago" |
| Helpers.UnitFor | src/Helpers.php:44-56 | for a difference of at least a minute, the unit chosen is one of the six intervals and is at most the difference |
| Helpers.FirstUnitPhrase | src/Helpers.php:53-64 | the foreach over the intervals gives "just now", "yesterday", or a phrase that starts with a digit and ends with " ago" |
| Helpers.RelativeTime | src/Helpers.php:32-65 | the phrase is "just now", "yesterday", or a count that starts with a digit and ends with " ago" |
| Helpers.RelativeTimeUsesLargestUnit | src/Helpers.php:32-65 | for a difference of a minute or more, the phrase uses the first (largest) interval that fits at least once |
| Helpers.JustNowIffUnderAMinute | src/Helpers.php:40-42 | "just now" is returned iff the difference is under 60 seconds, including future timestamps |
| Helpers.PluralIffMoreThanOne | src/Helpers.php:59-60 | a phrase other than "yesterday" ends in "s ago" iff the count is more than one |
| Helpers.RelativeTimeExamples | src/Helpers.php:32-65 | 59 s is "just now", a future time is "just now", 60 s is "1 minute ago", one day is "yesterday", two days is "2 days ago" |
| Helpers.MinutesAgo | src/Helpers.php:53-61 | under an hour, the phrase counts whole minutes |
| Helpers.DaysAgo | src/Helpers.php:53-61 | from two days to under a week, the phrase counts whole days |
| Helpers.FirstMatchFrom | src/Helpers.php:129-131 | the first position at or after the start where the marker occurs, or none if it never occurs there |
| Helpers.IdRun | src/Helpers.php:123-127 | the longest run of id characters at a position |
| Helpers.CaptureWith | src/Helpers.php:129-133 | a pattern captures a non-empty id iff its marker occurs in the URL |
| Helpers.FirstCapture | src/Helpers.php:129-134 | the first pattern that matches captures the id, and any captured id is a non-empty run of video-id characters |
| Helpers.YoutubeEmbedUrl | src/Helpers.php:120-137 | any result is the youtube-nocookie embed prefix followed by a video id |
| Helpers.YoutubeNoneIffNoPattern | src/Helpers.php:120-137 | null is returned iff none of the three patterns occurs in the URL |
| Helpers.YoutubeFirstPatternWins | src/Helpers.php:129-134 | the first pattern that matches decides the id, taken at its first occurrence |
| Helpers.YoutubeShortLink | src/Helpers.php:120-137 | https://youtu.be/ID embeds as the nocookie prefix plus ID |
| Helpers.YoutubeEmbedOfEmbedIsNull | src/Helpers.php:120-137 | an embed URL matches none of the patterns |
| Helpers.YoutubeEmbedNotReembedded | src/Helpers.php:120-137 | embedding is not applied twice: the embed URL of an embed URL is null |
| Env.FirstIndexOf | src/Env.php:40 | the position of the first '=' in a line, or none iff there is none |
| Env.StripQuotes | src/Env.php:48-52 | one pair of matching double or single quotes is removed; other values are unchanged |
| Env.ParseLine | src/Env.php:31-53 | blank lines, "0", comments and lines without '=' are skipped; a parsed key is trimmed and has no '='; every KEY=value line is parsed as Env.ParseAssignment states |
| Env.ParseAssignment | src/Env.php:31-53 | KEY=value with a key free of '=' that does not trim to a comment parses to the trimmed key and the trimmed, unquoted value, whatever whitespace surrounds the key and the value; an empty key ("=value") parses to the empty key |
| Env.AssignmentNotSkipped | src/Env.php:33-36 | a trimmed assignment line is neither empty() nor a comment, so the loop body does not skip it |
| Env.AssignmentSplitsAtKey | src/Env.php:40-44 | the split happens at the '=' that follows the key |
| Env.AssignmentParts | src/Env.php:45-46 | the text before that '=' trims to the trimmed key, and the text after it trims to the trimmed value |
| Env.TrimOfAssignment | src/Env.php:32 | trimming KEY=value trims the key on the left and the value on the right |
| Env.ParseLineRoundTrip | src/Env.php:31-53 | a key and a trimmed unquoted value written as KEY=value parse back to themselves |
| Env.QuotedValueStripsOnce | src/Env.php:48-52 | KEY="inner" and KEY='inner' parse to inner |
| Env.Entries | src/Env.php:26-31 | each line is parsed independently |
| Env.LoadedStep | src/Env.php:54-57 | one parsed line adds its key only when the key is not yet set |
| Env.Loaded | src/Env.php:54-58 | reading the lines never removes or changes a variable that was already set |
| Env.FirstDefinitionAppend | src/Env.php:54-57 | a later line never changes a key an earlier line defined |
| Env.LoadedKeepsFirst | src/Env.php:16-62 | loading keeps every pre-set variable, and a new key gets the value of its first definition in the file |
| Env.LoadedKeysComeFromLines | src/Env.php:31-58 | every loaded key was pre-set or defined in the file |
| Env.Environment.Load | src/Env.php:16-62 | a second load or a missing file changes nothing; otherwise the variables become Loaded of the file and the loaded flag is set |
| Env.Environment.Assign | src/Env.php:55-57 | one parsed line is stored only when its key is not already set |
| Env.Environment.Get | src/Env.php:67-70 | the stored value when the key is set, the default otherwise |
| Env.Environment.Has | src/Env.php:75-78 | a key is set exactly when get without a default returns a value |
| Auth.CheckLogin | src/Auth.php:56-70 | success needs both credentials configured and truthy, and the username and password equal to them; equal truthy credentials succeed |
| Auth.FalsyPasswordLocksOut | src/Auth.php:61-63 | a configured password of "0" is falsy, so nobody can log in with it |
| Auth.StartedData | src/Auth.php:17-47 | starting a session changes no key except the regeneration time, and a recorded time stays recorded |
| Auth.RegenerationTimer | src/Auth.php:37-46 | starting a session records the time when none is recorded or after 300 s, so the recorded time is never more than 300 s old; no other key changes |
| Auth.StartKeepsLoginAndToken | src/Auth.php:17-47 | starting a session changes neither the login flag, nor which tokens are accepted, nor the flashed error and success messages |
| Auth.IssuedData | src/Auth.php:137-147 | an existing token is kept and nothing changes; otherwise exactly the token key is added, holding the new token |
| Auth.TokenIsStable | src/Auth.php:142-146 | asking for the token twice gives the first token |
| Auth.CsrfAccepts | src/Auth.php:155-170 | a token is accepted only when it is present, truthy and equal to the stored one; a missing or falsy token, or no stored token, is refused |
| Auth.IssuedTokenAccepted | src/Auth.php:155-170 | once issued, a token is accepted iff it is truthy and equal to the stored one; falsy tokens are refused |
| Auth.RecordRedirect | src/Auth.php:121-132 | afterwards a redirect is remembered: an existing one is kept, otherwise the request URI (or /admin/) is stored; no other key changes |
| Auth.FirstRedirectWins | src/Auth.php:121-132 | the first remembered redirect wins; reading it (getLoginRedirect) removes it, so the next read gives /admin/ |
| Auth.Session.StartSession | src/Auth.php:17-47 | the session is active, its map is StartedData of the old one, and regenerations count the 300 s expiries |
| Auth.Session.IsLoggedIn | src/Auth.php:75-79 | true iff the login key holds the boolean true |
| Auth.Session.Login | src/Auth.php:84-88 | the login key is set to true in the started session |
| Auth.Session.Logout | src/Auth.php:93-116 | the session map is emptied and the session is no longer active |
| Auth.Session.RequireAuth | src/Auth.php:121-132 | the request goes to the login page iff the session is not logged in, and then remembers the first requested URI; otherwise only the session start happens |
| Auth.Session.CsrfToken | src/Auth.php:137-147 | the stored token is returned, or the fresh one is stored and returned when there was none |
| Auth.Session.CsrfValidate | src/Auth.php:155-170 | the result is CsrfAccepts of the session before the call |
| Auth.Session.GetLoginRedirect | src/Auth.php:184-190 | the remembered URI, or /admin/, is returned and removed |
| Auth.Session.TakeFlash | admin/game.php:12-16 | both flash messages are read ("" when absent) and removed |
| Auth.Session.Flash | admin/update_delete.php:33 | the message is stored under the flash key |
| Tables.FindGame | admin/game.php:22 | SELECT by id: a row with that id, or none iff no row has it |
| Tables.FindGameFindsRow | admin/game.php:22 | with unique ids, looking up a row's id finds that row |
| Tables.LiveGame | admin/_auth.php:106-109 | the first live row, or none iff no row is live |
| Tables.LiveGameIsTheLiveOne | admin/_auth.php:106-109 | when at most one game is live, the live row is the one found |
| Tables.UpdatesOf | update.php:61-64 | the updates of one game, all from the table |
| Tables.UpdatesOfComplete | update.php:61-64 | an update is listed iff it is in the table and belongs to the game |
| Tables.UpdatesOfChronological | update.php:61-64 | the selection keeps creation order |
| Tables.FindUpdate | admin/update_delete.php:48-51 | SELECT by id and game: a matching row, or none iff no row matches both |
| Tables.ClearedLive | admin/game.php:113 | every game's live flag is cleared and nothing else changes |
| Tables.MarkedLive | admin/game.php:116 | the games with the id become live with a new updated_at; the others are unchanged |
| Tables.UnmarkedLive | admin/game.php:136 | the games with the id stop being live with a new updated_at; the others are unchanged |
| Tables.Edited | admin/game.php:76-79 | the games with the id take the submitted fields; the others are unchanged |
| Tables.WithoutUpdate | admin/update_delete.php:60 | the rows kept are exactly those whose id differs |
| Tables.CountWithId | admin/update_delete.php:60-62 | rowCount is the number of rows that were removed |
| Tables.DeleteRemovesOneRow | admin/update_delete.php:53-62 | with unique ids, deleting an existing row's id removes exactly one row |
| Tables.SetLiveLeavesExactlyOne | admin/game.php:108-118 | clearing every flag then marking one game leaves exactly that game live, and it is the live game |
| Tables.UnmarkKeepsAtMostOne | admin/game.php:136 | unsetting a game keeps at most one game live |
| Tables.EditsKeepIds | admin/game.php:76-116 | none of the game statements breaks id uniqueness |
| Tables.EditKeepsFlags | admin/game.php:76-79 | saving a game never changes a live flag |
| Tables.WithoutUpdateKeepsOrder | admin/update_delete.php:60 | deleting keeps the remaining updates in creation order |
| Tables.DeleteKeepsIds | admin/update_delete.php:60 | deleting keeps ids unique and only removes rows |
| Tables.Database.ClearLive | admin/game.php:113 | the games become ClearedLive of the old ones; nothing else changes |
| Tables.Database.MarkLive | admin/game.php:116 | the games become MarkedLive of the old ones; nothing else changes |
| Tables.Database.UnmarkLive | admin/game.php:136 | the games become UnmarkedLive of the old ones; nothing else changes |
| Tables.Database.EditGame | admin/game.php:76-79 | the games become Edited of the old ones; nothing else changes |
| Tables.Database.RestoreGames | admin/game.php:124-125 | the rollback restores the snapshot of the games; nothing else changes |
| Tables.Database.InsertGame | admin/game.php:83-87 | one row with the next id is appended and the id is returned |
| Tables.Database.InsertUpdate | admin/updates.php:97-100 | one row with the next id is appended and the id is returned |
| Tables.Database.DeleteUpdate | admin/update_delete.php:60-62 | the rows with the id are removed and rowCount is how many |
| Feed.ResolveOutputPath | update.php:38-43 | an absolute path is kept; a relative one is prefixed with the script directory and a slash |
| Feed.ResolveOutputPathIdempotent | update.php:41-43 | with an absolute script directory, the result is absolute and resolving it again changes nothing |
| Feed.OutputPath | update.php:38-43 | without JSON_OUTPUT_PATH the default ./public/current.json under the script directory; otherwise a path ending in the configured one |
| Feed.ShapeEntry | update.php:68-99 | an entry keeps id, type and time, carries the relative time, has html iff the type is html, url iff the type is nhl_goal or youtube, and embed_url exactly for youtube rows whose url embeds |
| Feed.GameBlockOf | update.php:103-119 | the game block copies title, teams, scores and update time; a null lineup becomes "" |
| Feed.Crashes | update.php:85-95 | only a row that is not well shaped can crash the generator: a row with exactly one of content/url, chosen by type, never does |
| Feed.WellShapedHtmlPublishedVerbatim | update.php:81-83 | an html row is published as stored, without url or embed_url |
| Feed.BuildEntries | update.php:67-100 | the loop crashes iff some youtube row has a null url; otherwise entry i is ShapeEntry of update i |
| Feed.GenerateFeed | update.php:45-158 | a written document goes to the resolved path; it is the no_live_game status without a live game, and otherwise the live game's block and its updates shaped in order; a fault gives the error outcome (500 on the web, exit status 1 from the command line, update.php:145-158); a youtube row without url ends the run uncaught |
| Feed.AdminTablesAlwaysPublish | update.php:61-100 | when every row is well shaped, no update of the live game can crash the generator |
| UpdateInput.Validate | admin/updates.php:53-92 | an accepted update is well shaped; html is accepted iff present and the sanitiser as written (SanitizedHtml) returns a value, which is stored; a URL type is accepted iff present and the URL validator returns the trimmed URL; a rejection always carries a non-empty message |
| UpdateInput.ValidateHtml | admin/game.php:165-169 | html content is refused iff it is missing or sanitizeHtml as written (SanitizedHtml) returns null; otherwise it is accepted as that markup, with no url |
| UpdateInput.ValidateUrl | admin/game.php:170-179 | a URL type is refused as missing or invalid, or accepted as the validated URL with no content |
| UpdateInput.ZeroContentDiffers | admin/updates.php:55-58 | html content "0" is missing for admin/updates.php (empty()) but not for admin/game.php (=== '') |
| UpdateInput.ForeignHostRejected | admin/updates.php:67-91 | a URL whose host is outside the type's allowlist is never accepted |
| GameAdmin.LoadedPage | admin/game.php:12-31 | no id (or an empty one) loads the live game; a non-numeric id loads nothing; a numeric id loads that game or reports "Game not found." |
| GameAdmin.SubmittedFields | admin/game.php:45-57 | the saved fields are the trimmed texts, the integer scores and the normalised lineups |
| GameAdmin.CrlfToLf | admin/game.php:54 | the result is never longer than the text, and text without a carriage return is unchanged |
| GameAdmin.CrlfToLfSplit | admin/game.php:54 | a CRLF pair after CR-free text becomes one line feed, and the rest is converted in the same way, so every line break counts |
| GameAdmin.CrlfToLfLoneSplit | admin/game.php:54 | a CR not followed by LF after CR-free text is kept by the first replacement, and the rest is converted in the same way |
| GameAdmin.CrToLfAppend | admin/game.php:55 | the second replacement works character by character, so it distributes over concatenation |
| GameAdmin.NormalizeLineupCrlf | admin/game.php:54-57 | a lineup whose first break is CRLF normalises to the first line, one line feed, and the rest converted by both replacements, right-trimmed |
| GameAdmin.NormalizeLineupLoneCr | admin/game.php:54-57 | a lineup whose first break is a lone CR normalises to the first line, one line feed, and the rest converted, right-trimmed |
| GameAdmin.ThreeCrlfLines | admin/game.php:54-57 | three CR-free lines joined by CRLF pairs become the same lines joined by line feeds |
| GameAdmin.CrToLf | admin/game.php:54-55 | every lone carriage return becomes a line feed, position by position |
| GameAdmin.NormalizeLineup | admin/game.php:54-57 | a normalised lineup has no carriage return and no trailing whitespace |
| GameAdmin.NormalizeLineupIdempotent | admin/game.php:54-57 | normalising twice is normalising once |
| GameAdmin.NormalizeLeavesCleanText | admin/game.php:54-57 | text without carriage returns or trailing whitespace is unchanged |
| GameAdmin.CrlfBecomesLf | admin/game.php:54 | a CRLF pair becomes one line feed |
| GameAdmin.LoneCrBecomesLf | admin/game.php:54 | a lone CR becomes a line feed |
| GameAdmin.SaveErrors | admin/game.php:59-68 | there are no errors iff every check passes, and at most eight messages |
| GameAdmin.SaveErrorsReportEachCheck | admin/game.php:59-71 | a title "0" is reported as missing first; an out-of-range away score is reported last; any failure gives a non-empty error |
| GameAdmin.Save | admin/game.php:44-102 | the tables and page become Saved of the old ones: invalid fields give the joined errors and no change; a fault gives the database error and no change; otherwise the loaded game is updated or a new game is appended and loaded; the updates table is untouched and at most one game stays live |
| GameAdmin.StoreGame | admin/game.php:73-97 | the loaded game is updated in place, or a new game is appended and becomes the page's game |
| GameAdmin.EditExisting | admin/game.php:74-80 | the loaded game's row takes the submitted fields and is the page's game afterwards; "Game updated successfully." |
| GameAdmin.CreateNew | admin/game.php:81-91 | one row with the next id, not live, is appended and becomes the page's game; "Game created successfully." |
| GameAdmin.SetLive | admin/game.php:104-129 | the games and page become WentLive of the old ones: no game gives an error; a fault at either statement rolls every flag back; otherwise exactly the page's game is live and it is the live game |
| GameAdmin.UnsetLive | admin/game.php:131-145 | the games and page become WentOffline of the old ones: a game that is not loaded or not live gives an error; a fault is reported with no change; otherwise the game stops being live and, when at most one game was live, no game is live |
| GameAdmin.OnlyLiveGameCleared | admin/game.php:131-145 | unsetting the only live game leaves no live game |
| GameAdmin.AddUpdate | admin/game.php:147-195 | the updates and page become UpdateAddedTo of the old ones: no game, an invalid type, a failed validation, a pending error or a failing INSERT change nothing and leave their message; otherwise exactly one well-shaped row is appended; the table changes iff AddInserts holds |
| GameAdmin.DeleteUpdate | admin/game.php:197-218 | the updates and page become UpdateDeletedFrom of the old ones: no game, a bad id, "Update not found for this game." or either failing statement remove nothing and say why; otherwise exactly the one row is removed |
| GameAdmin.HandlePost | admin/game.php:33-221 | a refused token changes nothing and reports the token error; an accepted one gives Performed of the action; a set_live that goes through makes the page's game the live game; at most one game stays live |
| GameAdmin.RunAction | admin/game.php:43-219 | the tables and page become Performed of the old ones: each action's own outcome on its own table, nothing for an unknown action; set_live makes the page's game the live game; unset_live of the only live game leaves none live |
| GameAdmin.SetLiveShowsTheLiveGame | admin/game.php:104-129 | after a set_live that goes through, exactly one game is live and it is the game the page shows |
| GameAdmin.UnsetLiveLeavesNoneLive | admin/game.php:131-145 | after an unset_live of the live game that goes through, no game is live |
| GameAdmin.GameRequest | admin/game.php:10-221 | the login page iff not logged in, with the redirect remembered; otherwise the flash is taken and the page is LoadedPage with the flashed messages on GET, the token error on a refused POST, and Performed of the action on an accepted POST; at most one game stays live |
| UpdatesAdmin.Checked | admin/updates.php:53-92 | an accepted update is well shaped; a rejection carries a non-empty message |
| UpdatesAdmin.StoredInsertsIff | admin/updates.php:94-110 | after the INSERT step the table changes iff the input was accepted, no error is pending and the INSERT does not throw; then exactly one row is appended, holding the posted type, the validated content and url, the live game's id, the next id and the time, and success is reported |
| UpdatesAdmin.PostedInsertsIff | admin/updates.php:28-114 | after a POST the table changes iff the token is accepted, the action is add_update and AddInserts holds; then exactly one well-shaped row is appended, holding the posted type and the validated content and url for the live game, and "Update added successfully!" is reported |
| UpdatesAdmin.AddUpdate | admin/updates.php:37-111 | the updates and page become UpdateAddedTo of the old ones: a type outside the three gives "Invalid update type."; a rejected input gives its message; a pending error leaves the page unchanged; a failing INSERT gives the database error; none of these changes the table; otherwise exactly the validated row for the live game is appended and success is reported |
| UpdatesAdmin.Store | admin/updates.php:94-110 | the updates and page become Stored of the old ones: a rejection reports its message; a pending error leaves the page as it was; a fault reports "Database error: " and the fault's message; none of these changes the table; otherwise one row with the next id, the live game's id, the type, the content, the url and the time is appended, with "Update added successfully!" |
| UpdatesAdmin.UpdatesRequest | admin/updates.php:10-120 | the login page iff not logged in, with the redirect remembered in the session and no table change; otherwise the flash keys are cleared from the started session; admin/game.php iff no game is live, with no table change; on GET the page holds the flashed error and success and the table is unchanged; on POST the table and page become Posted of the old ones, starting from the flashed messages; the table changes iff a valid token adds a valid update to the live game, and then exactly one well-shaped row is appended; the page lists the live game's updates |
| UpdatesAdmin.ShowPage | admin/updates.php:12-120 | after the guard the flash keys are removed from the session; with no live game the page redirects and the table is unchanged; on GET the page shows the flashed messages; on POST the table and page become Posted of the old ones; the list is the live game's updates |
| UpdatesAdmin.HandlePost | admin/updates.php:28-114 | the updates and page become Posted of the old ones: a refused token gives the token error and no change; an accepted token runs UpdateAddedTo for add_update, and any other action changes nothing; the session map is unchanged; the table changes iff the token is accepted and add_update inserts |
| UpdatesAdmin.AddedRowIsListed | admin/updates.php:117-120 | after a successful add, the page's list is the old list plus the new row |
| UpdateDelete.RowFlash | admin/update_delete.php:46-70 | the success message is set iff the SELECT finds the row for the live game and neither statement throws; otherwise an error message |
| UpdateDelete.IdFlash | admin/update_delete.php:38-70 | a non-numeric or non-positive id gives "Invalid update ID."; success needs a valid id and the row found |
| UpdateDelete.RequestFlash | admin/update_delete.php:30-70 | a refused token gives the token error; success needs an accepted token, a valid id and the row found |
| UpdateDelete.DeleteRequest | admin/update_delete.php:10-74 | the login page iff not logged in, with the redirect remembered in the session; GET goes back to updates.php and no live game goes to game.php, both with only the session started; otherwise exactly the one row is deleted when all checks pass, nothing is deleted otherwise, and the session gets the one flash message that says which |
| UpdateDelete.HandleDelete | admin/update_delete.php:30-70 | the token check, the id check and the try block, ending with one flash message |
| UpdateDelete.CheckAndDelete | admin/update_delete.php:38-70 | the id check before the try block |
| UpdateDelete.DeleteRow | admin/update_delete.php:46-70 | the row is removed and success is flashed exactly when RowFlash says so; with requests handled one at a time the rowCount is then 1, so "Failed to delete update." is not reached |

## Left out

- libxml parsing and serialisation, the `removeJavaScript` regular expressions, `filter_var(FILTER_VALIDATE_URL)` and `parse_url`'s host are not modelled; they are the fields of `Sanitizer.Platform`, given as parameters.
- The DOM is modelled as values: `Sanitizer.SanitizeNode` returns a new child list instead of moving nodes in place, and `CleanAttributes` returns the kept attributes.
- JSON encoding, `Helpers::atomicWriteJson` (temporary file, rename, directory creation) and the HTTP headers are not modelled; `Feed.GenerateFeed` returns the document and the path.
- `escapeHtml`, `csrfField`, the timezone and the page rendering (`renderAdminHeader`, the forms, the lists) are left out, because they only produce output.
- Times are epoch seconds given as parameters. `DateTime`, `NOW()`, `time()` and the ISO 8601 formatting are not modelled.
- The session runtime (cookies, `session_regenerate_id`, `session_destroy`, cookie parameters) is not modelled. `random_bytes` is a parameter. `hash_equals` is modelled as equality, without its timing.
- Reading the `.env` file is a parameter holding its lines, or none when it is missing; `putenv` is not modelled.
- The `(int)` casts of form fields and `is_numeric` are given as already-parsed values (`Strings.Numeric` and `int` form fields). POST values that are arrays are not modelled.
- `ORDER BY created_at ASC` is modelled as table order, which is creation order. admin/updates.php lists its updates newest first; the model lists them in table order.
- `LIMIT 1` on the live game is the first live row.
- Only the statements inside the source's try blocks can fail. The reads outside them (`getCurrentLiveGame`, the page's initial SELECT) never fail here, and `beginTransaction`/`commit` cannot fail on their own.
- The re-read of the game after save, set_live and unset_live returns the row the statement wrote; the model builds that row instead of reading it.
- `$_POST = []` after a successful add only resets the form, so it is not modelled.
- Tables.Database.DeleteUpdate: the `rowCount` can only be what the DELETE removed; a connection that reports 0 for a row that existed is not modelled.
- Strings are sequences of single-byte characters. Multibyte UTF-8 text is not modelled, so `strlen`, the 1000-byte cut and the byte-wise `trim` are exact only for single-byte text.
- Requests are modelled one at a time: two admin requests, or the feed generator and an admin page, never interleave. A concurrent delete of the same row between the SELECT and the DELETE, which would give "Failed to delete update.", is therefore not modelled.

## Findings

| source | as written | input that shows it | evidently intended | confidence | as-written member | corrected member |
|---|---|---|---|---|---|---|
| src/Sanitizer.php:95-108 | the children of a removed element are moved into the parent after the parent's child list was classified; they are never checked or cleaned, so a disallowed element inside another disallowed element survives | `<div><iframe src="https://evil.example/"></iframe></div>` keeps the iframe, and `<div><p style="x">a</p></div>` keeps the style attribute | the hoisted children are sanitised like any other child, so only allowlisted tags with clean attributes remain | not executed | Sanitizer.UnwrappedChildrenEscapeTheAllowlist | Sanitizer.IntendedIsClean |

`Sanitizer.SanitizedChildren` is the pass as written, and `Sanitizer.SanitizedHtml` and
`Sanitizer.SanitizeHtml` use it. The admin pages validate through `UpdateInput.Validate`, which
calls the sanitiser as written, as the source does; the html they store can therefore carry
the hoisted elements. `Sanitizer.SanitizedChildrenIntended` re-sanitises the hoisted children,
and `Sanitizer.SanitizedHtmlIntended` uses it: it states what the sanitiser is meant to do,
and `Sanitizer.IntendedIsClean` proves that it does.
