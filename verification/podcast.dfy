/** One podcast record from one parsed feed (`CreateFromFeed`): the episodes
    in feed order, the latest-episode fields, the website links and the
    rendered description. */
module PodcastBuilder {
  import opened Wrappers
  import opened Dates
  import Clean
  import HtmlGen
  import opened EpisodeBuilder
  import opened Seqs

  /** The fields of a parsed feed the site reads. */
  datatype Feed = Feed(
    title: string,
    description: string,
    link: string,
    published: string,
    items: seq<Item>)

  /** `latestEpisode` is None for a feed without items (nil in
      the source). */
  datatype Podcast = Podcast(
    feed: Feed,
    slug: string,
    title: string,
    description: string,
    episodes: seq<Episode>,
    feedUrl: string,
    websiteUrl: string,
    websiteUrl2: string,
    latestPublish: Date,
    latestPublishStr: string,
    latestEpisode: Option<Episode>)

  /** `strings.HasPrefix(s, p)`: `s` begins with `p`, character by character. */
  predicate HasPrefix(s: string, p: string): (b: bool)
    ensures b <==> |p| <= |s| && forall i :: 0 <= i < |p| ==> s[i] == p[i]
  {
    |p| <= |s| && s[..|p|] == p
  }

  /** One episode per item, in the feed's order. */
  function BuildEpisodes(markdown: string -> string, items: seq<Item>): (es: seq<Episode>)
    ensures |es| == |items|
    ensures forall i :: 0 <= i < |items| ==> es[i] == CreateFromItem(markdown, items[i])
  {
    MapInOrder(item => CreateFromItem(markdown, item), items)
  }

  /** The main and the secondary website link. An empty configured link is
      replaced by the feed's link; a configured link is kept, and the feed's
      link is shown as well when it is not empty and neither link is a
      prefix of the other. */
  function ResolveWebsite(configured: string, feedLink: string): (r: (string, string))
    ensures configured == [] ==> r == (feedLink, [])
    ensures configured != [] ==> r.0 == configured
    ensures r.1 == [] || r.1 == feedLink
    ensures r.1 != [] <==>
      configured != [] && feedLink != []
      && !HasPrefix(configured, feedLink) && !HasPrefix(feedLink, configured)
  {
    if configured == [] then (feedLink, [])
    else if feedLink != [] && !HasPrefix(configured, feedLink) && !HasPrefix(feedLink, configured) then
      (configured, feedLink)
    else (configured, [])
  }

  /** Two strings neither of which is a prefix of the other are exactly two
      strings that differ at some position both of them have. */
  lemma NeitherPrefixIff(a: string, b: string)
    ensures (!HasPrefix(a, b) && !HasPrefix(b, a)) <==>
      exists i :: 0 <= i < |a| && i < |b| && a[i] != b[i]
  {
    if !HasPrefix(a, b) && !HasPrefix(b, a) {
      if |a| <= |b| {
        assert b[..|a|] != a;
        var i :| 0 <= i < |a| && b[..|a|][i] != a[i];
        assert a[i] != b[i];
      } else {
        assert a[..|b|] != b;
        var i :| 0 <= i < |b| && a[..|b|][i] != b[i];
        assert a[i] != b[i];
      }
    }
    if exists i :: 0 <= i < |a| && i < |b| && a[i] != b[i] {
      var i :| 0 <= i < |a| && i < |b| && a[i] != b[i];
      if |b| <= |a| {
        assert a[..|b|][i] != b[i];
      }
      if |a| <= |b| {
        assert b[..|a|][i] != a[i];
      }
    }
  }

  /** The secondary link is shown exactly when both links are set and
      disagree at a position both have. */
  lemma SecondaryWebsiteIff(configured: string, feedLink: string)
    ensures ResolveWebsite(configured, feedLink).1 != [] <==>
      configured != [] && feedLink != [] &&
      exists i :: 0 <= i < |configured| && i < |feedLink| && configured[i] != feedLink[i]
  {
    NeitherPrefixIff(configured, feedLink);
  }

  /** `CreateFromFeed`: slug, feed URL and title pass through; episodes are
      built from the items in order; the latest fields come from the first
      episode, or default to the zero time and the feed's own published
      text when there is none. */
  function CreateFromFeed(markdown: string -> string, slug: string, feedUrl: string,
                          websiteUrl: string, feed: Feed): (p: Podcast)
    ensures p.feed == feed && p.slug == slug && p.feedUrl == feedUrl && p.title == feed.title
    ensures p.description == HtmlGen.CreateHTML(markdown, Clean.CleanDescription(feed.description))
    ensures |p.episodes| == |feed.items|
    ensures forall i :: 0 <= i < |feed.items| ==> p.episodes[i] == CreateFromItem(markdown, feed.items[i])
    ensures (p.websiteUrl, p.websiteUrl2) == ResolveWebsite(websiteUrl, feed.link)
    ensures feed.items == [] ==>
      p.latestEpisode == None && p.latestPublish == ZeroDate && p.latestPublishStr == feed.published
    ensures feed.items != [] ==>
      && p.latestEpisode == Some(p.episodes[0])
      && p.latestPublish == p.episodes[0].published
      && p.latestPublishStr == p.episodes[0].publishedStr
  {
    var episodes := BuildEpisodes(markdown, feed.items);
    var latest := if |episodes| > 0 then Some(episodes[0]) else None;
    var latestPublish := if |episodes| > 0 then episodes[0].published else ZeroDate;
    var latestPublishStr := if |episodes| > 0 then episodes[0].publishedStr else feed.published;
    var (site, site2) := ResolveWebsite(websiteUrl, feed.link);
    Podcast(
      feed,
      slug,
      feed.title,
      HtmlGen.CreateHTML(markdown, Clean.CleanDescription(feed.description)),
      episodes,
      feedUrl,
      site,
      site2,
      latestPublish,
      latestPublishStr,
      latest)
  }

  /** The latest date is the first item's date as the feed gives it, not
      the greatest: a dated first item fixes both latest fields. */
  lemma LatestFromFirstItem(markdown: string -> string, slug: string, feedUrl: string,
                            websiteUrl: string, feed: Feed, d: Date)
    requires feed.items != [] && feed.items[0].publishedParsed == Some(d)
    ensures var p := CreateFromFeed(markdown, slug, feedUrl, websiteUrl, feed);
      p.latestPublish == d && p.latestPublishStr == FormatDate(d)
  {
  }

  /** An undated first item gives the zero time and its raw date text. */
  lemma LatestUndatedFirstItem(markdown: string -> string, slug: string, feedUrl: string,
                               websiteUrl: string, feed: Feed)
    requires feed.items != [] && feed.items[0].publishedParsed == None
    ensures var p := CreateFromFeed(markdown, slug, feedUrl, websiteUrl, feed);
      p.latestPublish == ZeroDate && p.latestPublishStr == feed.items[0].published
  {
  }

  /** Appending an item to the feed appends its episode and leaves the
      earlier episodes alone. */
  lemma {:induction false} BuildEpisodesAppend(markdown: string -> string, items: seq<Item>, item: Item)
    ensures BuildEpisodes(markdown, items + [item]) ==
      BuildEpisodes(markdown, items) + [CreateFromItem(markdown, item)]
  {
    var f := (it: Item) => CreateFromItem(markdown, it);
    assert (items + [item])[..|items|] == items;
    assert BuildEpisodes(markdown, items + [item]) == MapInOrder(f, items) + [f(item)];
  }
}
