/**
 * The `award_badge_link` template tag: a link to the award page of a badge for
 * users allowed to issue it, nothing for the others; and the reverse of the
 * award route `badge/<slug>/award` it links to.
 */
module Tags {
  import opened Wrappers
  import opened Text
  import opened Base64
  import opened Models

  /** The URL resolver found no route for the arguments. */
  datatype TagError = NoReverseMatch

  const AwardPrefix: string := "badge/"
  const AwardSuffix: string := "/award"

  /** The slug group of the award route, `[^/]+`. */
  predicate IsRouteSlug(slug: string)
  {
    slug != [] && '/' !in slug
  }

  /** `reverse('minibadge.award_badge', args=[slug])` with the URL patterns mounted
      at `root`: the route exists only for a slug its group matches. */
  function AwardBadgeUrl(root: string, slug: string): (url: Option<string>)
    ensures url.Some? <==> IsRouteSlug(slug)
    ensures IsBadgeSlug(slug) ==> url.Some?
  {
    if IsRouteSlug(slug) then Some(root + AwardPrefix + slug + AwardSuffix) else None
  }

  /** Resolving a path under `root` against the award route: the slug it names. */
  function ResolveAward(root: string, path: string): Option<string>
  {
    var head := |root| + |AwardPrefix|;
    if head + |AwardSuffix| <= |path| && path[..head] == root + AwardPrefix
       && path[|path| - |AwardSuffix|..] == AwardSuffix
       && IsRouteSlug(path[head..|path| - |AwardSuffix|])
    then Some(path[head..|path| - |AwardSuffix|])
    else None
  }

  /** The award URL of a slug resolves back to that slug. */
  lemma ResolveReverse(root: string, slug: string)
    requires IsRouteSlug(slug)
    ensures ResolveAward(root, AwardBadgeUrl(root, slug).value) == Some(slug)
  {
    var path := AwardBadgeUrl(root, slug).value;
    var head := |root| + |AwardPrefix|;
    assert path[..head] == root + AwardPrefix;
    assert path[|path| - |AwardSuffix|..] == AwardSuffix;
    assert path[head..|path| - |AwardSuffix|] == slug;
  }

  /** A path the award route resolves is the award URL of the slug it resolves to. */
  lemma ReverseResolve(root: string, path: string)
    requires ResolveAward(root, path).Some?
    ensures AwardBadgeUrl(root, ResolveAward(root, path).value) == Some(path)
  {
    var head := |root| + |AwardPrefix|;
    var slug := path[head..|path| - |AwardSuffix|];
    assert path == path[..head] + slug + path[|path| - |AwardSuffix|..];
  }

  const LinkOpen: string := "<a class=\"award_badge\" href=\""
  const LinkClose: string := "</a>"
  const LinkText: string := "Issue award"

  /** The markup `<a class="award_badge" href="%s">%s</a>` filled with `href` and `text`. */
  function Anchor(href: string, text: string): string
  {
    LinkOpen + href + "\">" + text + LinkClose
  }

  /** Reads the href and the text back out of markup of the shape `Anchor` writes. */
  function ReadAnchor(html: string): Option<(string, string)>
  {
    if |LinkOpen| + |LinkClose| <= |html| && html[..|LinkOpen|] == LinkOpen
       && html[|html| - |LinkClose|..] == LinkClose
    then
      var inner := Split(html[|LinkOpen|..|html| - |LinkClose|], '"');
      if |inner| == 2 && inner[1] != [] && inner[1][0] == '>' then Some((inner[0], inner[1][1..])) else None
    else None
  }

  /** An anchor whose href and text hold no double quote reads back as written. */
  lemma {:induction false} AnchorRoundTrip(href: string, text: string)
    requires '"' !in href && '"' !in text
    ensures ReadAnchor(Anchor(href, text)) == Some((href, text))
  {
    var html := Anchor(href, text);
    var inner := href + "\">" + text;
    assert html == LinkOpen + inner + LinkClose;
    assert html[..|LinkOpen|] == LinkOpen;
    assert html[|html| - |LinkClose|..] == LinkClose;
    assert html[|LinkOpen|..|html| - |LinkClose|] == inner;
    var parts := [href, ">" + text];
    assert Join(parts[1..], '"') == ">" + text;
    assert Join(parts, '"') == inner;
    SplitJoin(parts, '"');
  }

  /** `award_badge_link(badge, user)` with the URL patterns mounted at `root`: for a
      user allowed to award the badge, a link to the award page of the badge's slug;
      for anyone else, the empty string. */
  function AwardBadgeLink(root: string, badge: Badge, user: Option<User>): (html: Result<string, TagError>)
    ensures !AllowsAwardTo(badge, user) ==> html == Ok("")
    ensures AllowsAwardTo(badge, user) && !IsRouteSlug(badge.slug) ==> html == Err(NoReverseMatch)
    ensures AllowsAwardTo(badge, user) && IsRouteSlug(badge.slug) ==>
              html.Ok? && html.value != "" && LinkOpen <= html.value
  {
    if AllowsAwardTo(badge, user) then
      match AwardBadgeUrl(root, badge.slug)
      case Some(url) => Ok(Anchor(url, LinkText))
      case None => Err(NoReverseMatch)
    else Ok("")
  }

  /** The link is produced exactly for the users allowed to award the badge. */
  lemma LinkIffAllowed(root: string, badge: Badge, user: Option<User>)
    requires IsRouteSlug(badge.slug)
    ensures AwardBadgeLink(root, badge, user).Ok?
    ensures AwardBadgeLink(root, badge, user).value != "" <==> AllowsAwardTo(badge, user)
  {
  }

  /** Read back, a produced link points at the award route of the badge's slug and
      its text is exactly `Issue award`. */
  lemma {:induction false} LinkTargetsAwardRoute(root: string, badge: Badge, user: Option<User>)
    requires AllowsAwardTo(badge, user) && IsRouteSlug(badge.slug)
    requires '"' !in root && '"' !in badge.slug
    ensures var anchor := ReadAnchor(AwardBadgeLink(root, badge, user).value);
            && anchor.Some? && anchor.value.1 == LinkText
            && ResolveAward(root, anchor.value.0) == Some(badge.slug)
  {
    var url := AwardBadgeUrl(root, badge.slug).value;
    assert '"' !in url by {
      assert url == root + AwardPrefix + badge.slug + AwardSuffix;
    }
    AnchorRoundTrip(url, LinkText);
    ResolveReverse(root, badge.slug);
  }

  /** A badge whose slug passed the slug field's validation always gets its link
      when the tag is called without a user. */
  lemma NoUserAlwaysLinked(root: string, badge: Badge)
    requires IsBadgeSlug(badge.slug)
    ensures AwardBadgeLink(root, badge, None).Ok?
    ensures AwardBadgeLink(root, badge, None).value != ""
  {
  }
}
