/** The XML sitemap (`CreateSitemap`, `Add`, `Render`): entries are kept in
    the order they were added, and each is printed with a last-modified
    date that is never earlier than the sitemap's minimum. */
module SitemapXml {
  import opened Text
  import opened Dates
  import opened Seqs

  datatype Entry = Entry(url: string, timestamp: Date)

  /** `minTimestamp` is compared as text, as the source does. */
  datatype Sitemap = Sitemap(base: string, minTimestamp: string, entries: seq<Entry>)

  /** `CreateSitemap`: no entries yet. */
  function CreateSitemap(base: string, minTimestamp: string): (sm: Sitemap)
    ensures sm.entries == []
    ensures sm.base == base && sm.minTimestamp == minTimestamp
  {
    Sitemap(base, minTimestamp, [])
  }

  /** `Add`: the new entry goes last; earlier entries, base and minimum are
      kept. */
  function Add(sm: Sitemap, url: string, timestamp: Date): (r: Sitemap)
    ensures |r.entries| == |sm.entries| + 1
    ensures r.entries[..|sm.entries|] == sm.entries
    ensures r.entries[|sm.entries|] == Entry(url, timestamp)
    ensures r.base == sm.base && r.minTimestamp == sm.minTimestamp
  {
    sm.(entries := sm.entries + [Entry(url, timestamp)])
  }

  /** The `<lastmod>` text: the entry's formatted date, raised to the
      minimum when it sorts below it. */
  function LastMod(minTimestamp: string, timestamp: Date): (r: string)
    ensures !LexLess(r, minTimestamp)
    ensures r == minTimestamp || r == FormatDate(timestamp)
    ensures r == FormatDate(timestamp) <==>
      !LexLess(FormatDate(timestamp), minTimestamp) || FormatDate(timestamp) == minTimestamp
  {
    var t := FormatDate(timestamp);
    if LexLess(t, minTimestamp) then
      LexLessIrreflexive(minTimestamp);
      minTimestamp
    else t
  }

  /** The later of two dates. */
  function Later(a: Date, b: Date): Date {
    if Before(a, b) then b else a
  }

  /** With a minimum that is itself a formatted date, the text comparison
      picks the chronologically later date. */
  lemma LastModIsLater(m: Date, timestamp: Date)
    ensures LastMod(FormatDate(m), timestamp) == FormatDate(Later(timestamp, m))
  {
    FormatDateOrder(timestamp, m);
  }

  /** An entry with the zero time (a podcast without episodes) shows the
      minimum. */
  lemma LastModZeroDate(m: Date)
    requires Before(ZeroDate, m)
    ensures LastMod(FormatDate(m), ZeroDate) == FormatDate(m)
  {
    LastModIsLater(m, ZeroDate);
  }

  const Header: string :=
    "<?xml version=\"1.0\" encoding=\"UTF-8\"?>\n"
    + "<urlset xmlns=\"http://www.sitemaps.org/schemas/sitemap/0.9\">\n"

  const Footer: string := "</urlset>\n"

  /** The fixed text of a `<url>` element: before the location, between
      the location and the date, and after the date. */
  const UrlOpen: string := "    <url>\n        <loc>"
  const LocToLastMod: string := "</loc>\n        <lastmod>"
  const UrlClose: string := "</lastmod>\n    </url>\n"

  /** The `<url>` element of one entry: the `<loc>` field holds the base
      followed by the entry's path, without escaping, and the `<lastmod>`
      field holds the floored date. */
  function UrlBlock(base: string, minTimestamp: string, e: Entry): (r: string)
    ensures var loc, lastmod := base + e.url, LastMod(minTimestamp, e.timestamp);
      var i, j := |UrlOpen| + |loc|, |UrlOpen| + |loc| + |LocToLastMod|;
      && |r| == j + |lastmod| + |UrlClose|
      && r[..|UrlOpen|] == UrlOpen
      && r[|UrlOpen|..i] == loc
      && r[i..j] == LocToLastMod
      && r[j..|r| - |UrlClose|] == lastmod
      && r[|r| - |UrlClose|..] == UrlClose
  {
    var loc, lastmod := base + e.url, LastMod(minTimestamp, e.timestamp);
    Fields(UrlOpen, loc, LocToLastMod, lastmod, UrlClose);
    UrlOpen + loc + LocToLastMod + lastmod + UrlClose
  }

  /** The `<url>` elements of the entries, in order. */
  function Body(base: string, minTimestamp: string, es: seq<Entry>): (r: string)
    ensures r == [] <==> es == []
  {
    var blocks := MapInOrder(e => UrlBlock(base, minTimestamp, e), es);
    assert es != [] ==> |blocks[0]| > 0;
    Flatten(blocks)
  }

  /** The file text `Render` writes. */
  function Render(sm: Sitemap): (r: string)
    ensures |r| >= |Header| + |Footer|
    ensures r[..|Header|] == Header && r[|r| - |Footer|..] == Footer
    ensures sm.entries == [] ==> r == Header + Footer
  {
    var body := Body(sm.base, sm.minTimestamp, sm.entries);
    Framed(Header, body, Footer);
    Header + body + Footer
  }

  /** The body of two lists of entries is the two bodies one after the
      other. */
  lemma BodyConcat(base: string, minTimestamp: string, a: seq<Entry>, b: seq<Entry>)
    ensures Body(base, minTimestamp, a + b) == Body(base, minTimestamp, a) + Body(base, minTimestamp, b)
  {
    var f := e => UrlBlock(base, minTimestamp, e);
    MapConcat(f, a, b);
    FlattenConcat(MapInOrder(f, a), MapInOrder(f, b));
  }

  /** The body of a single entry is its `<url>` element. */
  lemma BodySingle(base: string, minTimestamp: string, e: Entry)
    ensures Body(base, minTimestamp, [e]) == UrlBlock(base, minTimestamp, e)
  {
    var blocks := MapInOrder(e' => UrlBlock(base, minTimestamp, e'), [e]);
    assert blocks == [UrlBlock(base, minTimestamp, e)];
    assert blocks[1..] == [];
  }

  /** Adding an entry adds its `<url>` element just before the closing tag. */
  lemma RenderAdd(sm: Sitemap, url: string, timestamp: Date)
    ensures Render(Add(sm, url, timestamp)) ==
      Header
      + (Body(sm.base, sm.minTimestamp, sm.entries) + UrlBlock(sm.base, sm.minTimestamp, Entry(url, timestamp)))
      + Footer
  {
    var e := Entry(url, timestamp);
    var b, m := sm.base, sm.minTimestamp;
    BodyConcat(b, m, sm.entries, [e]);
    BodySingle(b, m, e);
    assert Body(b, m, sm.entries + [e]) == Body(b, m, sm.entries) + UrlBlock(b, m, e);
  }

  /** Every entry is printed, in insertion order: the i-th element follows
      the elements of the entries before it. */
  lemma RenderEntryAt(sm: Sitemap, i: nat)
    requires i < |sm.entries|
    ensures Render(sm) ==
      Header
      + (Body(sm.base, sm.minTimestamp, sm.entries[..i])
         + (UrlBlock(sm.base, sm.minTimestamp, sm.entries[i])
            + Body(sm.base, sm.minTimestamp, sm.entries[i + 1..])))
      + Footer
  {
    var es, b, m := sm.entries, sm.base, sm.minTimestamp;
    assert es == es[..i] + ([es[i]] + es[i + 1..]);
    BodyAround(b, m, es[..i], es[i], es[i + 1..]);
  }

  /** The body around one entry: the entries before it, its element, the
      entries after it. */
  lemma BodyAround(b: string, m: string, pre: seq<Entry>, at: Entry, post: seq<Entry>)
    ensures Body(b, m, pre + ([at] + post)) == Body(b, m, pre) + (UrlBlock(b, m, at) + Body(b, m, post))
  {
    BodySingle(b, m, at);
    BodyConcat(b, m, [at], post);
    BodyConcat(b, m, pre, [at] + post);
  }
}
