/**
 The onebox engine's `to_html`: the id captured by the URL pattern is
 spliced, unescaped, between a fixed prefix and a fixed suffix that make up
 an `<iframe>` for Bilibili's embedded player.
 */
module BilibiliOnebox {
  import opened BilibiliRegex
  import opened VideoUrls

  /** The markup before the id: the player URL up to its `bvid` query parameter. */
  const PlayerPrefix: string := "<iframe src='https://player.bilibili.com/player.html?bvid="

  /** The markup after the id: the remaining player parameters and iframe attributes. */
  const PlayerSuffix: string :=
    "&high_quality=1&autoplay=0' scrolling='no' border='0' frameborder='no' width='100%' height='430' allowfullscreen='true'></iframe>"

  /** The iframe template applied to an id, which is inserted verbatim. */
  function Embed(id: string): (html: string)
    ensures |html| == |PlayerPrefix| + |id| + |PlayerSuffix|
    ensures PlayerPrefix <= html && html[|html| - |PlayerSuffix|..] == PlayerSuffix
    ensures html[|PlayerPrefix|..|html| - |PlayerSuffix|] == id
  {
    Decompose(PlayerPrefix, id, PlayerSuffix);
    PlayerPrefix + id + PlayerSuffix
  }

  /** Reads the id back out of markup built by the template, if it has the template's shape. */
  function EmbeddedId(html: string): (r: Option<string>)
    ensures r.Some? ==> Embed(r.value) == html
  {
    if |PlayerPrefix| + |PlayerSuffix| <= |html|
       && PlayerPrefix <= html
       && html[|html| - |PlayerSuffix|..] == PlayerSuffix
    then
      Recompose(html, PlayerPrefix, PlayerSuffix);
      Some(html[|PlayerPrefix|..|html| - |PlayerSuffix|])
    else None
  }

  lemma Recompose(s: string, front: string, back: string)
    requires |front| + |back| <= |s|
    requires front <= s && s[|s| - |back|..] == back
    ensures s == front + s[|front|..|s| - |back|] + back
  {
    assert s == s[..|front|] + s[|front|..|s| - |back|] + s[|s| - |back|..];
  }

  lemma Decompose(front: string, middle: string, back: string)
    ensures var s := front + middle + back;
      front <= s && s[|s| - |back|..] == back && s[|front|..|s| - |back|] == middle
  {
    var s := front + middle + back;
    assert s[..|front|] == front;
    assert s[|s| - |back|..] == back;
  }

  /** The template loses nothing: the id it was given can be read back out of its output. */
  lemma EmbedRoundTrip(id: string)
    ensures EmbeddedId(Embed(id)) == Some(id)
  {
    Decompose(PlayerPrefix, id, PlayerSuffix);
  }

  /** Different ids give different markup. */
  lemma EmbedInjective(a: string, b: string)
    ensures Embed(a) == Embed(b) <==> a == b
  {
    EmbedRoundTrip(a);
    EmbedRoundTrip(b);
  }

  /**
   `to_html`: `None` where `@url.match(REGEX)` is `nil`, on which the source
   raises when it indexes the missing match.
   */
  function ToHtml(url: string): (r: Option<string>)
    ensures r.Some? <==> Matches(url)
    ensures r.Some? ==> EmbeddedId(r.value) == ExtractId(url)
  {
    match ExtractId(url)
    case None => None
    case Some(id) =>
      EmbedRoundTrip(id);
      Some(Embed(id))
  }

  /**
   On a single-line URL the markup is the template applied to the first
   segment after `/video/`, and nothing for any other URL.
   */
  lemma ToHtmlCharacterisation(url: string)
    requires SingleLine(url)
    ensures IsVideoPageUrl(url) ==> ToHtml(url) == Some(Embed(FirstSegment(Remainder(url))))
    ensures !IsVideoPageUrl(url) ==> ToHtml(url) == None
  {
    ExtractIdCharacterisation(url);
  }

  /**
   The markup depends on the id alone: URLs with either scheme that share the
   id and differ only from the `/` after it onwards render identically.
   */
  lemma HtmlDependsOnlyOnId(prefix1: string, prefix2: string, id: string, tail1: string, tail2: string)
    requires prefix1 == HttpPrefix || prefix1 == HttpsPrefix
    requires prefix2 == HttpPrefix || prefix2 == HttpsPrefix
    requires '/' !in id && '\n' !in id
    requires tail1 == [] || tail1[0] == '/'
    requires tail2 == [] || tail2[0] == '/'
    ensures ToHtml(prefix1 + id + tail1) == ToHtml(prefix2 + id + tail2) == Some(Embed(id))
  {
    ExtractFromBuiltUrl(prefix1, id, tail1);
    ExtractFromBuiltUrl(prefix2, id, tail2);
  }

  /**
   The id is not escaped: quotes and angle brackets in it reach the markup
   as they are, and close the `src` attribute early.
   */
  lemma IdNotEscaped(prefix: string, id: string)
    requires prefix == HttpPrefix || prefix == HttpsPrefix
    requires '/' !in id && '\n' !in id
    ensures ToHtml(prefix + id) == Some(PlayerPrefix + id + PlayerSuffix)
    ensures var html := ToHtml(prefix + id).value;
            html[|PlayerPrefix|..|PlayerPrefix| + |id|] == id
  {
    ExtractFromBuiltUrl(prefix, id, []);
    Decompose(PlayerPrefix, id, PlayerSuffix);
  }
}
