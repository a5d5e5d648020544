/**
 * The validation switch that admin/game.php and admin/updates.php both run on a submitted
 * update once its type is known to be one of html, nhl_goal and youtube: the required field
 * must be present, then the sanitiser must accept it. The two pages differ only in how they
 * test "present": admin/game.php compares with '' and admin/updates.php uses empty(), which
 * also refuses "0".
 */
module UpdateInput {
  import opened Strings
  import opened Tables
  import Sanitizer

  /** How a page decides that a required field is missing. */
  datatype Presence = Identical | PhpEmptiness

  predicate Missing(s: string, presence: Presence)
  {
    if presence == Identical then s == "" else PhpEmpty(s)
  }

  datatype Verdict = Accepted(content: Option<string>, url: Option<string>) | Rejected(message: string)

  const HtmlRequired: string := "HTML content is required."
  const HtmlInvalid: string := "HTML content is invalid or too long (max 1000 characters)."
  const NhlRequired: string := "NHL goal URL is required."
  const NhlInvalid: string := "Invalid NHL URL. Must be HTTPS and from nhl.com domain."
  const YoutubeRequired: string := "YouTube URL is required."
  const YoutubeInvalid: string := "Invalid YouTube URL. Must be HTTPS and from an allowed YouTube domain."

  /** The switch over the type, with the trimmed content and url. */
  function Validate(p: Sanitizer.Platform, kind: string, content: string, url: string, presence: Presence)
    : (v: Verdict)
    requires kind in ValidTypes
    ensures v.Accepted? ==> WellShaped(Update(0, 0, kind, v.content, v.url, 0))
    ensures v.Accepted? && kind == "html" ==>
      v.content == Sanitizer.SanitizedHtml(p, Some(content)) && v.content.Some?
    ensures v.Accepted? && kind != "html" ==>
      v.url == Sanitizer.SanitizeUrl(p, Some(url), kind) && v.url.Some? && v.url.value == Trim(url)
    ensures kind == "html" ==>
      (v.Rejected? <==> Missing(content, presence) || Sanitizer.SanitizedHtml(p, Some(content)).None?)
    ensures kind != "html" ==>
      (v.Rejected? <==> Missing(url, presence) || Sanitizer.SanitizeUrl(p, Some(url), kind).None?)
    ensures v.Rejected? ==> !PhpEmpty(v.message)
  {
    if kind == "html" then ValidateHtml(p, content, presence) else ValidateUrl(p, kind, url, presence)
  }

  /** The html case. */
  function ValidateHtml(p: Sanitizer.Platform, content: string, presence: Presence): (v: Verdict)
    ensures v.Accepted? ==> v.url.None? && v.content.Some? && v.content == Sanitizer.SanitizedHtml(p, Some(content))
    ensures v.Rejected? <==> Missing(content, presence) || Sanitizer.SanitizedHtml(p, Some(content)).None?
    ensures v.Rejected? ==> v.message == HtmlRequired || v.message == HtmlInvalid
  {
    if Missing(content, presence) then Rejected(HtmlRequired)
    else
      var sanitized := Sanitizer.SanitizedHtml(p, Some(content));
      if sanitized.None? then Rejected(HtmlInvalid) else Accepted(sanitized, None)
  }

  /** The nhl_goal and youtube cases, which differ only in their messages and allowlist. */
  function ValidateUrl(p: Sanitizer.Platform, kind: string, url: string, presence: Presence): (v: Verdict)
    ensures v.Accepted? ==> v.content.None? && v.url.Some? && v.url == Sanitizer.SanitizeUrl(p, Some(url), kind)
    ensures v.Accepted? ==> v.url.value == Trim(url)
    ensures v.Rejected? <==> Missing(url, presence) || Sanitizer.SanitizeUrl(p, Some(url), kind).None?
    ensures v.Rejected? ==> !PhpEmpty(v.message)
  {
    var required := if kind == "nhl_goal" then NhlRequired else YoutubeRequired;
    var invalid := if kind == "nhl_goal" then NhlInvalid else YoutubeInvalid;
    if Missing(url, presence) then Rejected(required)
    else
      var sanitized := Sanitizer.SanitizeUrl(p, Some(url), kind);
      if sanitized.None? then Rejected(invalid) else Accepted(None, sanitized)
  }

  /** The difference between the pages: html content "0" is refused as missing by
      admin/updates.php and handed to the sanitiser by admin/game.php. */
  lemma ZeroContentDiffers(p: Sanitizer.Platform, url: string)
    ensures Validate(p, "html", "0", url, PhpEmptiness) == Rejected(HtmlRequired)
    ensures Validate(p, "html", "0", url, Identical) != Rejected(HtmlRequired)
  {
  }

  /** A url that names a host outside the allowlist is never stored for a domain type. */
  lemma ForeignHostRejected(p: Sanitizer.Platform, kind: string, url: string, presence: Presence)
    requires kind == "nhl_goal" || kind == "youtube"
    requires p.host(Trim(url)).Some?
    requires !Sanitizer.DomainAllowed(Lower(p.host(Trim(url)).value), Sanitizer.DomainsFor(kind))
    ensures Validate(p, kind, url, url, presence).Rejected?
  {
  }
}
