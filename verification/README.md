# lauf-podcasts content pipeline, modelled in Dafny

This project models the part of lauf-podcasts that turns an already parsed RSS
feed into the site's records, and the site's XML sitemap:

- slug generation for podcast names (`SanitizeName`);
- removal of hosting-platform boilerplate from descriptions (`CleanDescription`);
- the choice between HTML, Markdown and plain text when a description is rendered (`IsHTML`, `IsMarkdown`, `CreateHTML`);
- normalisation of iTunes durations to `H:MM:SS` (`NormalizeDuration`);
- assembly of `Episode` and `Podcast` records with their fallbacks (`CreateFromItem`, `CreateFromFeed`);
- the sitemap entries and the text `Render` writes, with the `<lastmod>` floor (`CreateSitemap`, `Add`, `Render`).

Everything is immutable datatypes and pure functions over `seq<char>`.

The modules are:

- `Wrappers`: `Option`.
- `Text`: Go's `strings.ReplaceAll`, `strings.Count` and string `<`, with their laws.
- `Decimal`: digit strings, `%d` and `%02d`.
- `Dates`: an abstract calendar date and the layout `2006-01-02`.
- `Seqs`: the append loop over a list and the concatenation of pieces, generically.
- `Sanitize`, `Clean`, `HtmlGen`, `EpisodeBuilder`, `PodcastBuilder`, `SitemapXml`: one per source file.

Library behaviour is stated as follows:

- `strings.ReplaceAll` makes one leftmost, non-overlapping pass. With an empty pattern it inserts at every rune boundary.
- `strings.HasPrefix(s, p)` is `PodcastBuilder.HasPrefix`: `p` is no longer than `s` and agrees with it character by character.
- Go compares strings byte-wise. UTF-8 preserves code-point order, so this is lexicographic order on characters.
- RE2's `\s` is tab, newline, form feed, carriage return and space. `\d` is `0`-`9`.
- `strconv.ParseInt(_, 10, 64)` accepts values up to 2^63-1.
- The zero `time.Time` is 0001-01-01.

The Unicode tables behind `strings.ToLower` and the NFD/non-spacing-mark filter enter as a parameter `Folding` of per-rune functions. `ActsLikeUnicode` states the only facts the proofs use:

- ASCII lowercases as usual and never decomposes (used by `SanitizeSlugUnchanged` and `SanitizeWord`);
- the lowercase umlauts and `ß` are their own lowercase (used by `SanitizeWord`, through `LowerFixesWord`).

The Markdown renderer enters as an uninterpreted parameter `markdown: string -> string`.

Cleaning a description does not guarantee that none of the four blocks remains, because each deletion is a single pass. Deleting an inner empty paragraph can leave a new one behind (`Clean.CleanIsSinglePass`).

## Model

| member | source | states |
|---|---|---|
| Sanitize.SanitizeName | internal/utils/sanitize.go:12-50 | The slug holds only `a`-`z`, `0`-`9` and `-`, and never starts or ends with `-` or holds `--`. It is empty exactly when the lowered, spelled-out, hyphenated and stripped text has no letter or digit. It keeps exactly those letters and digits, in order. |
| Sanitize.SanitizeNameIsSlugify | internal/utils/sanitize.go:12-50 | For every name, the slug equals an independent reference: the maximal runs of `a`-`z`/`0`-`9` of the prepared text, in order, joined by single hyphens. So each run of other characters between letters or digits becomes exactly one hyphen, and runs at either end vanish. |
| Sanitize.SlugifyJoin | internal/utils/sanitize.go:28-49 | Two runs of letters or digits around a nonempty separator run are joined by exactly one hyphen. |
| Sanitize.ScanFromSlugify | internal/utils/sanitize.go:28-49 | Scanning from a state with `lastSp` set adds nothing for text without letters or digits, and otherwise adds the reference slug once the trailing hyphen is dropped. |
| Sanitize.ScanIsScanFrom | internal/utils/sanitize.go:28-43 | The loop's recursive model equals the front-to-back scan from the initial state (`s = ""`, `lastSp = true`). |
| Sanitize.DropTrailingHyphenSlug | internal/utils/sanitize.go:45-49 | Dropping the trailing hyphen of a scan state gives a slug with the same letters and digits, empty exactly when the scan output is. |
| Sanitize.SanitizeWord | internal/utils/sanitize.go:12-50 | End to end: a name of lowercase letters, digits and umlauts becomes its spelled-out form, so `ü` reaches the slug as `ue` rather than being lost when marks are stripped. |
| Sanitize.LowerFixesWord | internal/utils/sanitize.go:13 | Lowercase letters, digits and umlauts are their own lowercase. |
| Sanitize.SpellOutWord | internal/utils/sanitize.go:14-17 | Spelling out a word of letters, digits and umlauts leaves only letters and digits, and never shortens it. |
| Sanitize.Lower | internal/utils/sanitize.go:13 | `strings.ToLower` maps each rune through the lowercase table, in place: same length, and position i holds the lowercase of rune i. |
| Sanitize.Hyphenate | internal/utils/sanitize.go:18-23 | The six replacements act in place: same length, and each space, period, apostrophe, double quote and parenthesis becomes `-` while every other character stays. |
| Sanitize.FoldConcat | internal/utils/sanitize.go:24 | The NFD and mark-removal step (`Fold`) works rune by rune: folding a concatenation folds the parts. |
| Sanitize.Scan | internal/utils/sanitize.go:28-43 | After the loop the output holds only slug characters, with no leading or doubled hyphen. It ends in a hyphen exactly when `lastSp` is set. It is empty exactly when no letter or digit was seen, and it keeps every letter and digit in order. |
| Sanitize.ScanLoop | internal/utils/sanitize.go:28-43 | The loop as written, updating the output and `lastSp` in place, ends in the same state as the recursive scan, so it keeps the scan invariant. |
| Sanitize.ScanSlugPrefix | internal/utils/sanitize.go:30-43 | A slug prefix goes through the loop unchanged, and `lastSp` ends set exactly when it ends in a hyphen. |
| Sanitize.SanitizeSlugUnchanged | internal/utils/sanitize.go:13-49 | Idempotence: a string that is already a slug comes back unchanged. |
| Sanitize.SanitizeEmpty | internal/utils/sanitize.go:28-49 | The empty name gives the empty slug. |
| Sanitize.LowerFixesSlugChars | internal/utils/sanitize.go:13 | Lowercasing leaves a string of slug characters alone. |
| Sanitize.FoldFixesAscii | internal/utils/sanitize.go:24 | The NFD/mark-removal step leaves ASCII text alone. |
| Sanitize.ReplaceNone | internal/utils/sanitize.go:14-23 | Replacing a character that does not occur changes nothing. |
| Sanitize.SpellOutUmlauts | internal/utils/sanitize.go:14-17 | After the four replacements no `ä`, `ö`, `ü` or `ß` is left for the later stripping step. |
| Sanitize.SpellOutConcat | internal/utils/sanitize.go:14-17 | The four replacements act character by character: spelling out a concatenation concatenates the spelled-out parts. |
| Sanitize.SpellOutUmlautChars | internal/utils/sanitize.go:14-17 | `ä`, `ö`, `ü`, `ß` become `ae`, `oe`, `ue`, `ss`. |
| Sanitize.SpellOutOtherChar | internal/utils/sanitize.go:14-17 | Every other character is kept as it is. |
| Text.ReplaceAll | internal/podcast/clean.go:11-14 | A deletion never lengthens the text. A pattern longer than the text changes nothing. |
| Text.ReplaceAllAbsent | internal/podcast/clean.go:11-14 | Text without an occurrence of the pattern is returned unchanged. |
| Text.ReplaceAllDeletionShrinks | internal/podcast/clean.go:11-14 | Deleting a pattern that occurs makes the text strictly shorter. |
| Text.ReplaceAllDeletesOnly | internal/podcast/clean.go:11-14 | Deleting a pattern only cuts characters out: the result is a subsequence (`Sub`) of the text, with nothing altered or reordered. |
| Text.SubTrans | internal/podcast/clean.go:11-14 | Cutting characters out twice is cutting characters out once, so chained deletions stay deletions. |
| Text.DeletionsDeleteOnly | internal/podcast/clean.go:11-14 | The four deletions in a row leave a subsequence of the original text. |
| Text.DeletionUnchangedIff | internal/podcast/clean.go:11-14 | A deletion leaves the text unchanged exactly when the pattern does not occur. |
| Text.DeletionsUnchangedIff | internal/podcast/clean.go:11-14 | Four deletions in a row leave a text unchanged exactly when none of the four patterns occurs in it. |
| Text.DeleteOnce | internal/podcast/clean.go:14 | A text with a single occurrence that no earlier start overlaps loses exactly that occurrence. |
| Text.LexLessFirstDifference | internal/utils/sitemap.go:45 | Go's `<` on strings (`LexLess`) holds exactly when `a` is a proper prefix of `b`, or at the first position where they differ `a` holds the smaller character. |
| Text.ReplaceAllSingleChar | internal/utils/htmlgen.go:38 | Replacing a one-character pattern is the same as substituting each occurrence of that character. |
| Clean.CleanDescription | internal/podcast/clean.go:10-16 | The four ordered deletions only remove text: the result is the input with characters cut out and the rest kept in order (`Sub`), so it is never longer. |
| Clean.CleanUnchangedIff | internal/podcast/clean.go:10-16 | A description is returned unchanged exactly when it holds none of the four blocks. |
| Clean.CleanAcastPrefix | internal/podcast/clean.go:5-11 | An Acast footer in front of clean text is removed without residue. |
| Clean.CleanSingleBlocks | internal/podcast/clean.go:7-14 | The plain art19 notice alone cleans to the empty string, without its HTML variant. So does an empty paragraph. |
| Clean.NestedEmptyParagraph | internal/podcast/clean.go:14 | One pass over an empty paragraph nested in another deletes the inner one, and the outer halves join into a new empty paragraph. |
| Clean.CleanIsSinglePass | internal/podcast/clean.go:8-14 | The deletion is a single pass. An empty paragraph nested in another survives as one empty paragraph. |
| HtmlGen.Classify | internal/utils/htmlgen.go:13-25 | The HTML branch is taken exactly when `IsHTML` holds. The Markdown branch is taken exactly when `IsMarkdown` holds and `IsHTML` does not. |
| HtmlGen.IsHTML | internal/utils/htmlgen.go:13-15 | The two counts of at least two hold exactly when two distinct positions hold `<` and two hold `>`. |
| HtmlGen.IsMarkdown | internal/utils/htmlgen.go:17-19 | The summed count of at least two holds exactly when two distinct positions each hold `*` or `[`. |
| HtmlGen.MarkdownExamples | internal/utils/htmlgen.go:17-19 | `**`, `[[` and `*[` count as Markdown, a single `*` does not. |
| HtmlGen.ClassifyHtmlExample | internal/utils/htmlgen.go:13-15 | Two tagged paragraphs are HTML. |
| HtmlGen.ClassifyHtmlWinsExample | internal/utils/htmlgen.go:22-24 | Tagged text with Markdown markers is still HTML: HTML takes precedence. |
| HtmlGen.ClassifyMarkdownExample | internal/utils/htmlgen.go:17-25 | Emphasis plus a link bracket is Markdown. |
| HtmlGen.ClassifyPlainExample | internal/utils/htmlgen.go:13-25 | A bare line of text is plain. |
| HtmlGen.BreakLines | internal/utils/htmlgen.go:38 | The result has no newline, and text without a newline is unchanged. |
| HtmlGen.BreakLinesIsReplaceAll | internal/utils/htmlgen.go:38 | The substitution equals `strings.ReplaceAll(s, "\n", "<br>")`. |
| HtmlGen.CreateHTML | internal/utils/htmlgen.go:21-42 | HTML passes through verbatim. Markdown goes to the renderer. Plain text gets each newline turned into `<br>` and keeps no newline. The auto-link result is discarded. |
| HtmlGen.BreakAroundNewline | internal/utils/htmlgen.go:38 | One newline between newline-free pieces becomes `<br>`, and nothing else changes. |
| HtmlGen.CreateHTMLLineBreak | internal/utils/htmlgen.go:38-41 | Plain text with one newline renders as the two pieces joined by `<br>`, without any added anchor. |
| Decimal.NatToString | internal/podcast/episode.go:32 | `%d` gives at least one digit with no leading zero, and the digits read back as the number. |
| Decimal.ZeroPad | internal/podcast/episode.go:32 | `%02d` gives digits that read back as the number. They fill at least the width, and exactly the width when the number fits. |
| Decimal.DigitsOrder | internal/utils/sitemap.go:45 | For digit strings of equal width, text order is numeric order and text equality is numeric equality. |
| Dates.FormatDate | internal/utils/sitemap.go:58-60 | The layout `2006-01-02` gives ten characters with dashes at positions 4 and 7. The digit fields read back as year, month and day. |
| Dates.ZeroDateText | internal/utils/sitemap.go:58-60 | The zero time formats as `0001-01-01`. |
| Dates.FormatDateOrder | internal/utils/sitemap.go:44-47 | Text order of formatted dates is chronological order, and the format is injective. |
| EpisodeBuilder.SkipSpaces | internal/podcast/episode.go:23 | The leading `\s*` ends at the first non-space: everything skipped is whitespace, and what follows is a non-space or the end. |
| EpisodeBuilder.SkipSpacesBack | internal/podcast/episode.go:23 | The trailing `\s*` starts right after the last non-space: everything skipped is whitespace, and what precedes is a non-space or the start. |
| EpisodeBuilder.SkipSpacesAt | internal/podcast/episode.go:23 | Any position reached over whitespace and followed by a non-space or the end is where the leading `\s*` stops. |
| EpisodeBuilder.SkipSpacesBackAt | internal/podcast/episode.go:23 | Any position preceded by a non-space or the start and followed only by whitespace is where the trailing `\s*` starts. |
| EpisodeBuilder.MatchSeconds | internal/podcast/episode.go:23-26 | A match yields a nonempty string of digits. |
| EpisodeBuilder.MatchSecondsIff | internal/podcast/episode.go:23-26 | `MatchSeconds` returns `d` exactly when `^\s*(\d+)\s*$` matches with `d` as its group. |
| EpisodeBuilder.MatchSecondsUnique | internal/podcast/episode.go:23-26 | Any way of matching the expression captures the same group. |
| EpisodeBuilder.NoMatchAt | internal/podcast/episode.go:23-26 | Text that starts and ends with a non-space and holds a non-digit does not match. |
| EpisodeBuilder.NoMatchExamples | internal/podcast/episode.go:23-26 | `1:02:03`, the empty string and `unbekannt` do not match. |
| EpisodeBuilder.ClockText | internal/podcast/episode.go:28-32 | `%0d:%02d:%02d` of h, m, s reads back as fields with `h*3600 + m*60 + s` equal to the total and `m, s < 60`. The hours carry no leading zero. |
| EpisodeBuilder.NormalizeDuration | internal/podcast/episode.go:25-36 | Text that does not match, or whose digits exceed 2^63-1, passes through unchanged. Otherwise the result reads back as a clock whose fields add up to the seconds, with minutes and seconds below 60. |
| EpisodeBuilder.NormalizeDurationDigits | internal/podcast/episode.go:26-32 | Matched digits within the int64 range are printed as that many seconds on the clock. |
| EpisodeBuilder.NormalizeDurationNoMatch | internal/podcast/episode.go:26-35 | Text the expression rejects is returned unchanged. |
| EpisodeBuilder.NormalizeDurationOverflow | internal/podcast/episode.go:27-35 | A digit string of 20 or more digits without leading zero overflows int64 and is returned unchanged. |
| EpisodeBuilder.NormalizeDurationExample | internal/podcast/episode.go:23-32 | `125` becomes `0:02:05`. |
| EpisodeBuilder.NormalizeDurationPaddedExample | internal/podcast/episode.go:23-32 | Surrounding whitespace is accepted: ` 125\n` becomes `0:02:05`. |
| EpisodeBuilder.NormalizeDurationHourExample | internal/podcast/episode.go:23-32 | `3661` becomes `1:01:01`. |
| EpisodeBuilder.NormalizeDurationPassThrough | internal/podcast/episode.go:26-35 | `1:02:03`, the empty string and `unbekannt` are returned unchanged. |
| EpisodeBuilder.CreateFromItem | internal/podcast/episode.go:38-58 | Title and link are copied. The description is the cleaned, then rendered item description. Without a parsed date the episode gets the zero time and the raw date text, otherwise the date and its `YYYY-MM-DD` text. The duration is `unbekannt` without an iTunes extension, else the normalised duration. |
| PodcastBuilder.BuildEpisodes | internal/podcast/podcast.go:27-30 | One episode per item, same length and order: element i is built from item i. |
| Seqs.MapInOrder | internal/podcast/podcast.go:27-30 | The append loop yields one result per element: same length, and result i is the function applied to element i. |
| PodcastBuilder.BuildEpisodesAppend | internal/podcast/podcast.go:27-30 | A further item appends its episode and leaves the earlier ones alone. |
| PodcastBuilder.ResolveWebsite | internal/podcast/podcast.go:40-47 | An empty configured link is replaced by the feed link, with no secondary. A configured link is kept. The secondary is the feed link exactly when both are nonempty and neither is a prefix of the other, and otherwise empty. |
| PodcastBuilder.NeitherPrefixIff | internal/podcast/podcast.go:44 | Two strings neither of which is a prefix of the other are exactly two strings that differ at a shared position. |
| PodcastBuilder.SecondaryWebsiteIff | internal/podcast/podcast.go:40-47 | The secondary website is shown exactly when both links are set and they differ at a shared position. |
| PodcastBuilder.CreateFromFeed | internal/podcast/podcast.go:26-63 | Slug, feed URL, feed and title pass through. The description is the cleaned, then rendered feed description. Episodes are built item by item in order. The website links are resolved as above. The latest fields come from the first episode, or default to none, the zero time and the feed's published text. |
| PodcastBuilder.LatestFromFirstItem | internal/podcast/podcast.go:34-38 | The latest date is the first item's date, not the greatest one: a dated first item fixes both latest fields. |
| PodcastBuilder.LatestUndatedFirstItem | internal/podcast/podcast.go:34-38 | An undated first item gives the zero time and its raw date text. |
| SitemapXml.CreateSitemap | internal/utils/sitemap.go:21-23 | A new sitemap has no entries and stores base and minimum verbatim. |
| SitemapXml.Add | internal/utils/sitemap.go:25-27 | Exactly one entry is appended at the end. Earlier entries, base and minimum are kept. |
| SitemapXml.LastMod | internal/utils/sitemap.go:44-47 | The emitted date is never below the minimum in text order. It is either the minimum or the entry's formatted date, and it is the formatted date exactly when that is not below the minimum. |
| SitemapXml.LastModIsLater | internal/utils/sitemap.go:44-47 | With a minimum that is itself a formatted date, the text comparison picks the chronologically later of the two dates. |
| SitemapXml.LastModZeroDate | internal/utils/sitemap.go:44-47 | An entry with the zero time is raised to any later minimum. |
| SitemapXml.UrlBlock | internal/utils/sitemap.go:48-51 | The `<url>` element holds, at fixed offsets between the fixed tags, the base followed by the entry's path as `<loc>`, and the floored date as `<lastmod>`. |
| SitemapXml.Body | internal/utils/sitemap.go:43-52 | The entries produce no text exactly when there are none. |
| SitemapXml.BodyConcat | internal/utils/sitemap.go:43-52 | The elements of two runs of entries are the two texts one after the other. |
| SitemapXml.BodySingle | internal/utils/sitemap.go:43-52 | A single entry produces exactly its `<url>` element. |
| Seqs.FlattenConcat | internal/utils/sitemap.go:43-52 | Writing two runs of pieces one after the other writes the two concatenations one after the other. |
| SitemapXml.Render | internal/utils/sitemap.go:41-53 | The text starts with the XML declaration and `<urlset>` header and ends with `</urlset>`. Without entries it is just those two. |
| SitemapXml.RenderAdd | internal/utils/sitemap.go:41-53 | After `Add`, the new entry's `<url>` element, with `<loc>` = base + URL, comes right before the closing tag. |
| SitemapXml.BodyAround | internal/utils/sitemap.go:43-52 | The body of the entries around one entry is the body before it, its element, and the body after it. |
| SitemapXml.RenderEntryAt | internal/utils/sitemap.go:41-53 | Every entry's `<url>` element appears, in insertion order: element i follows the elements of the entries before it. |

## Left out

- The error branch of `transform.String` (internal/utils/sanitize.go:24-27) is not modelled. The stripping step is a total per-rune function; the chained NFD and mark-removal transformer does not fail on a complete in-memory string.
- Sanitize: the actual Unicode tables are abstract. Only the ASCII and umlaut facts in `ActsLikeUnicode` are assumed, and idempotence is proved under them.
- Fold: canonical decomposition is modelled per rune, but NFD also reorders combining marks and inserts U+034F in very long runs of them. The slug is the same either way: reordering never moves a starter such as an ASCII letter or digit, and U+034F is itself a non-spacing mark that the filter removes.
- Sanitize: Go ranges over the runes of a UTF-8 string, and invalid bytes become U+FFFD. Strings here are sequences of characters, so invalid UTF-8 is not modelled.
- The gomarkdown parser and renderer (internal/utils/htmlgen.go:26-35) are a foreign library. They are the parameter `markdown`.
- The auto-link regular expression (internal/utils/htmlgen.go:39-40) computes a value that is thrown away. The model leaves it out, which is exactly its effect.
- `time.Time` is reduced to a calendar date with years 0 to 9999. Clock time, time zones and date parsing are done by the feed parser and are not modelled. `Item.publishedParsed` is its result.
- The feed parser itself and every field of `gofeed.Feed` and `gofeed.Item` the pipeline does not read are not modelled.
- `Podcast.feed` keeps the model's `Feed` record rather than the parser's object.
- File creation and writes in `Sitemap.Render` (internal/utils/sitemap.go:29-39, 55) are I/O. `Render` returns the text that would be written.
- `GetTimestamp` (internal/utils/sitemap.go:62-68) reads a file's modification time. It is I/O.
- main.go (configuration, downloads, templates, image scaling, the unstable `sort.Slice` of podcasts), internal/utils/download.go and internal/utils/file.go are network, filesystem and library plumbing. They are not part of this model.
- URLs in `<loc>` are written without XML escaping, as the source does. No well-formedness of the resulting XML is claimed.
