# Coomer route: a verified model of the per-post transform

This project models the RSSHub route for coomer.st (`lib/routes/coomer/index.ts`). The
handler builds a feed from the site's content API in these steps:

- It chooses the endpoint and the feed's title, image, link and author from the `source`
  and `id` parameters. The `posts` value, the default, serves the global timeline; any
  other value serves one creator's listing.
- It drops the posts that have neither content nor an attachments array, and keeps at most
  `limit` of the rest.
- It turns each remaining post into an item:
  - it builds the post's file list, with a lower-cased extension per file;
  - it numbers the rendered media fragments from 0 (`coomerFiles[k]`) and the
    `downloads.fanbox.cc` links of the post body from 1, and replaces link k by fragment k;
  - it places fragment 0 before the body and the fragments after the last replaced one
    after it;
  - it sets the enclosure from the last audio or video source whose extension the MIME
    table recognises. The table is an ordinary object, so besides m4a, mp3 and mp4 it also
    answers "constructor" and "__proto__" (see Findings); the model follows the corrected
    lookup, which recognises only m4a, mp3 and mp4;
  - it sets the guid, link, title and date.

The modules follow these steps:

| file | module | contents |
|---|---|---|
| `wrappers.dfy` | `Wrappers` | `Option` and `Result` |
| `jstext.dfy` | `JsText` | the JavaScript string operations the route uses: `replace(/.*\./, '')` with its line-terminator behaviour, `toLowerCase()`, and the `/downloads.fanbox.cc/` test with its unescaped dots |
| `posts.dfy` | `Posts` | post records, the filter and limit, and the file list, also as the loop `BuildFiles` |
| `splice.dfy` | `Splice` | the anchor splice (`SpliceAnchors`) and the description assembly (`AssembleDescription`), both loops proved against a specification function: `SpliceFrom` (recursive) and `Describe` (closed form) |
| `enclosure.dfy` | `Enclosures` | the MIME table and the last-wins enclosure loop (`PickEnclosure`) |
| `feed.dfy` | `CoomerFeed` | item and feed strings, the per-post transform, and the handler as a loop over the surviving posts that stops at the first TypeError |

The HTML template, the HTML parser, `parseDate` and `new URL` are not interpreted:

- The rendered media fragments, the parsed post content and the audio/video sources of a
  description are the function-typed fields `media`, `parse` and `sources` of
  `CoomerFeed.Html`.
- The page that `$.html()` serialises is the `Page(doc)` part of the description: the
  spliced element sequence itself, not a string.
- Dates and URLs are the symbolic values `ParsedDate(published)` and `Resolved(src, base)`.
- The two API responses, the post listing and the profile name, are inputs of the
  handler.

Every recognised source overwrites `enclosureInfo`, so the last one wins
(`Enclosures.LastEnclosureWins`).

## Model

| member | source | states |
|---|---|---|
| JsText.ToLowerIsLower | lib/routes/coomer/index.ts:76 | after `toLowerCase()` no upper-case letter remains, and every other character is unchanged |
| JsText.ToLowerFixesLower | lib/routes/coomer/index.ts:76 | `toLowerCase()` leaves a lower-case string unchanged |
| JsText.ToLowerKeepsNonLetters | lib/routes/coomer/index.ts:76 | lower-casing creates neither a '.' nor a line terminator |
| JsText.LineEndIsFirstTerminator | lib/routes/coomer/index.ts:76 | the line that `.*` can cover ends at the first line terminator |
| JsText.LastDotIsLast | lib/routes/coomer/index.ts:76 | the greedy `.*\.` stops at the last '.' of the line: no '.' follows it |
| JsText.StripOneLine | lib/routes/coomer/index.ts:76 | on a one-line path, `replace(/.*\./, '')` keeps exactly the text after the last '.', or the whole path when it has no '.'; the result holds no '.' |
| JsText.NoDotUnchanged | lib/routes/coomer/index.ts:76 | `replace(/.*\./, '')` leaves a string without '.' unchanged, whatever line terminators it holds, since `.*\.` cannot match |
| JsText.ExtensionOfDotless | lib/routes/coomer/index.ts:76 | a path without '.' has the whole path lower-cased as its extension, for every path |
| JsText.ExtensionOfOneLine | lib/routes/coomer/index.ts:76 | the extension of a one-line path is the lower-cased text after some '.' followed by no other '.'; with no '.' it is the whole path lower-cased; it is lower case and holds no '.' |
| JsText.ExtensionIdempotent | lib/routes/coomer/index.ts:76 | taking the extension of a one-line path's extension changes nothing |
| JsText.ExtensionNotIdempotentAcrossLines | lib/routes/coomer/index.ts:76 | for the path "a.b\nc.d" the extension is "b\nc.d" and its extension is "b\nd", so idempotence fails across lines |
| JsText.ExtensionOfSuffix | lib/routes/coomer/index.ts:83 | a one-line path "base.ext" with a dot-free `ext` has extension `ext` lower-cased |
| JsText.ExtensionOfWord | lib/routes/coomer/index.ts:83 | a one-line path ending in '.' and lower-case letters and digits has exactly those as its extension |
| JsText.ExtensionOfJpgSuffix | lib/routes/coomer/index.ts:83 | a one-line path ending in ".JPG" has extension "jpg" |
| JsText.ExtensionOfUpperCaseJpg | lib/routes/coomer/index.ts:83 | "photo.JPG" has extension "jpg" |
| JsText.StripThroughDot | lib/routes/coomer/index.ts:76 | `replace(/.*\./, '')` without the g flag: on the first line that holds a '.', deletes from that line's start through its last '.'; the string is unchanged when no line has a '.' (properties in `JsText.NoDotUnchanged`, `JsText.StripOneLine`, `JsText.StripFirstLineOnly`, `JsText.StripSecondLine`) |
| JsText.Extension | lib/routes/coomer/index.ts:76 | a file's `extension` field: the stripped path lower-cased (properties in `JsText.ExtensionOfOneLine` and the rows after it) |
| JsText.FanboxTest | lib/routes/coomer/index.ts:97-100 | `/downloads.fanbox.cc/.test(s)`: the unanchored pattern, whose dots take any non-terminator, matches at some position (characterised by `JsText.FanboxTestIff`) |
| JsText.StartsWithPatternIff | lib/routes/coomer/index.ts:97 | the pattern matches at the start of a string exactly when each character fits: each unescaped '.' takes any non-terminator and every other character only itself |
| JsText.FanboxTestIff | lib/routes/coomer/index.ts:97-100 | `regex.test` succeeds exactly when the pattern matches at some position of the string |
| JsText.FanboxFindsPatternAnywhere | lib/routes/coomer/index.ts:97-100 | "downloads?fanbox?cc" anywhere in an href matches, for any non-terminator in place of each '?' |
| JsText.ShortTextNeverMatches | lib/routes/coomer/index.ts:99-100 | a string shorter than the pattern never matches; in particular "undefined", the string a missing href becomes, never matches |
| Posts.Filter | lib/routes/coomer/index.ts:68 | `filter(i => i.content \|\| i.attachments)` in API order (characterised by `Posts.FilterMembers` and `Posts.FilterAppend`) |
| Posts.Surviving | lib/routes/coomer/index.ts:67-69 | the filtered posts cut to the first `limit` by `slice(0, limit)` (characterised by `Posts.SurvivingIsPrefix`) |
| Posts.FileList | lib/routes/coomer/index.ts:71-85 | the `i.files` the loop builds, or the TypeError it stops on: a missing `file`, a missing attachments array, or an attachment without `path` (characterised by `Posts.FileListShape`) |
| Posts.FilterMembers | lib/routes/coomer/index.ts:68 | the filter keeps exactly the posts with truthy content or an attachments array, even an empty one |
| Posts.FilterAppend | lib/routes/coomer/index.ts:68 | the filter keeps API order: filtering a concatenation filters each part in turn |
| Posts.SurvivingIsPrefix | lib/routes/coomer/index.ts:67-69 | the posts turned into items are a prefix of the filtered posts, of length min(limit, filtered), at most `limit`, each passing the filter |
| Posts.FilterExamples | lib/routes/coomer/index.ts:68 | a post with content is kept; a post with an empty attachments array is kept; a post with neither content nor an attachments array is dropped |
| Posts.FileListShape | lib/routes/coomer/index.ts:71-85 | the file list exists exactly when `file` and `attachments` do and every attachment has a `path`; a missing `file` fails first, then a missing attachments array, then an attachment without `path` (`attachment.path.replace` throws). It is the main file (only when `file` has a `path`) and then one entry per attachment in order, so its length is (has path ? 1 : 0) + \|attachments\| |
| Posts.FileListEntry | lib/routes/coomer/index.ts:79-84 | attachment i has its entry right after the main file's entry, with that attachment's name, path and extension |
| Posts.FileListExtensions | lib/routes/coomer/index.ts:71-85 | every entry's extension is its own path's extension, and it is lower case |
| Posts.FileListExtensionsHaveNoDot | lib/routes/coomer/index.ts:76-83 | no entry's extension holds a '.' when every path is one line |
| Posts.BuildFiles | lib/routes/coomer/index.ts:71-85 | the push loop yields the file list, or the TypeError for a missing `file`, a missing attachments array or the first attachment without `path` |
| Splice.MatchesIsRegexTest | lib/routes/coomer/index.ts:99-100 | an element is replaced exactly when it is an anchor whose href, stringified as "undefined" when missing, passes the regex test |
| Splice.MatchCountAppend | lib/routes/coomer/index.ts:96-104 | the matching anchors of two token lists add up |
| Splice.SpliceFrom | lib/routes/coomer/index.ts:98-104 | the splice keeps the number of elements of the document |
| Splice.SpliceAppend | lib/routes/coomer/index.ts:98-104 | splicing two parts in turn: the second continues the match count of the first |
| Splice.SpliceFromAt | lib/routes/coomer/index.ts:98-104 | element j becomes fragment k exactly when it is the k-th matching anchor; otherwise it is kept |
| Splice.SpliceAnchors | lib/routes/coomer/index.ts:96-104 | the `.each` loop ends with `count` equal to the number of matching anchors; the k-th matching anchor is replaced by fragment k (`undefined` past the end), and every other element is unchanged |
| Splice.AssembleDescription | lib/routes/coomer/index.ts:105-108 | the description is fragment 0 (nothing when there is none), then the page, then every fragment after index `count` in order |
| Splice.SplicedFragments | lib/routes/coomer/index.ts:98-104 | the spliced page shows fragments count+1 to count+matches, those that exist, in order |
| Splice.Describe | lib/routes/coomer/index.ts:105-108 | the description: fragment 0 if any, then the page `$.html()`, then `coomerFiles.slice(count + 1)` (characterised by `Splice.DescribeFragments`) |
| Splice.DescribeFragments | lib/routes/coomer/index.ts:105-108 | the description shows fragment 0, then what the page shows, then `coomerFiles.slice(count + 1)` |
| Splice.DescriptionShowsEveryFragment | lib/routes/coomer/index.ts:96-108 | every media fragment appears in the final description exactly once and in order |
| Splice.NoMatchKeepsTokens | lib/routes/coomer/index.ts:98-104 | with no matching anchor, every element of the page is kept |
| Splice.DescribeNoneConsumed | lib/routes/coomer/index.ts:105-108 | with `count` 0, the page sits between fragment 0 and fragment 1, and every later fragment follows in order |
| Splice.NoMatchKeepsContent | lib/routes/coomer/index.ts:96-108 | with no matching anchor the content is unchanged and placed between fragment 0 and fragment 1, followed by every other fragment |
| Splice.TwoLinksThreeFragments | lib/routes/coomer/index.ts:96-108 | two fanbox links around other content, with three fragments: fragment 0 leads, fragments 1 and 2 replace the links in order, and nothing is appended |
| Enclosures.MimeType | lib/routes/coomer/index.ts:113-118 | only m4a, mp3 and mp4 are recognised, and they map to audio/mp4, audio/mpeg and video/mp4 |
| Enclosures.Candidate | lib/routes/coomer/index.ts:111-126 | what one source contributes under the corrected lookup: its resolved URL and MIME type when `MimeType` recognises its extension, nothing otherwise (`src ?? ''` for a missing `src`) |
| Enclosures.LastEnclosure | lib/routes/coomer/index.ts:110-128 | the final `enclosureInfo`: the last source's candidate that is present (characterised by `Enclosures.LastEnclosureWins`) |
| Enclosures.CandidateAsWritten | lib/routes/coomer/index.ts:111-126 | what one source contributes under the lookup as written, where any truthy property, own or inherited from `Object.prototype`, sets the enclosure (compared by `Enclosures.AsWrittenAgreesOutsideInherited`) |
| Enclosures.LastSomeWins | lib/routes/coomer/index.ts:110-128 | a variable overwritten by every present value ends set exactly when some value is present, and then holds the last one |
| Enclosures.LastEnclosureWins | lib/routes/coomer/index.ts:110-128 | an enclosure is set exactly when some source is recognised; it is that of the last recognised source; none is set when none is recognised |
| Enclosures.LastEnclosureStep | lib/routes/coomer/index.ts:111-127 | one more source: a recognised one replaces the enclosure, any other leaves it |
| Enclosures.PickEnclosure | lib/routes/coomer/index.ts:110-128 | the `.each` loop over the sources leaves the last recognised source's resolved URL and MIME type |
| Enclosures.SingleSource | lib/routes/coomer/index.ts:110-128 | with one source, the enclosure is that source's, if recognised |
| Enclosures.SingleMp3Source | lib/routes/coomer/index.ts:112-127 | one source "base.mp3" gives an audio/mpeg enclosure at its resolved URL |
| Enclosures.SingleWebmSource | lib/routes/coomer/index.ts:112-122 | one source "base.webm" gives no enclosure |
| Enclosures.LookupAsWritten | lib/routes/coomer/index.ts:113-118 | the object lookup as written: the table's three MIME strings, the inherited `Object.prototype` members for "constructor" and "__proto__", and `null` for every other extension (compared by `Enclosures.AsWrittenAgreesOutsideInherited`) |
| Enclosures.AsWrittenAgreesOutsideInherited | lib/routes/coomer/index.ts:113-122 | the object lookup as written and the MIME table agree on every extension except "constructor" and "__proto__" |
| Enclosures.InheritedCandidate | lib/routes/coomer/index.ts:113-127 | extension "constructor": the lookup as written sets an enclosure with the inherited `Object` as its type, while the MIME table skips the source |
| Enclosures.InheritedNameSetsEnclosure | lib/routes/coomer/index.ts:112-127 | the source "base.constructor" sets an enclosure under the lookup as written and none under the MIME table |
| CoomerFeed.Guid | lib/routes/coomer/index.ts:135 | the item guid `coomer:<service>:<user>:post:<id>` (inverted by `CoomerFeed.GuidRoundTrip`) |
| CoomerFeed.PostLink | lib/routes/coomer/index.ts:136 | the item link `https://coomer.st/<service>/user/<user>/post/<id>` (inverted by `CoomerFeed.PostLinkRoundTrip`) |
| CoomerFeed.ItemTitle | lib/routes/coomer/index.ts:131 | `i.title \|\| parseDate(i.published)` (characterised by `CoomerFeed.ItemTitleChoice`) |
| CoomerFeed.ItemTitleChoice | lib/routes/coomer/index.ts:131 | the title is the post's title when non-empty, otherwise its parsed publish date |
| CoomerFeed.SplitAtJoin | lib/routes/coomer/index.ts:135-136 | splitting `a + sep + b` at the first separator gives back `a` and `b` when `a` has no separator |
| CoomerFeed.DropPrefixJoin | lib/routes/coomer/index.ts:135-136 | removing a prefix from `prefix + s` gives back `s` |
| CoomerFeed.GuidRoundTrip | lib/routes/coomer/index.ts:135 | the guid is `coomer:<service>:<user>:post:<id>`: it parses back to service, user and id when they hold no ':' |
| CoomerFeed.PostLinkRoundTrip | lib/routes/coomer/index.ts:136 | the link is `https://coomer.st/<service>/user/<user>/post/<id>`: it parses back to service, user and id when they hold no '/' |
| CoomerFeed.SourceOf | lib/routes/coomer/index.ts:45 | `ctx.req.param('source') ?? 'posts'`: the given source, or "posts" when absent |
| CoomerFeed.IdText | lib/routes/coomer/index.ts:51 | `${id}` in a template string: the given id, or "undefined" when absent (also at lines 66 and 144) |
| CoomerFeed.LimitOf | lib/routes/coomer/index.ts:44 | the given limit, or 25 when the `limit` query is absent |
| CoomerFeed.ListingUrl | lib/routes/coomer/index.ts:49-51 | the API endpoint: `/api/v1/posts` for `posts`, `/api/v1/<source>/user/<id>` otherwise |
| CoomerFeed.Requests | lib/routes/coomer/index.ts:57-64 | the URLs the handler fetches: the listing, and for a per-user source also its `/profile` |
| CoomerFeed.Author | lib/routes/coomer/index.ts:64 | the feed author: empty for `posts`, the profile's name otherwise |
| CoomerFeed.FeedTitle | lib/routes/coomer/index.ts:65 | "Coomer Posts" for `posts`, `Posts of <author> from <source> \| Coomer` otherwise |
| CoomerFeed.FeedImage | lib/routes/coomer/index.ts:66 | the favicon for `posts`, `https://img.coomer.st/icons/<source>/<id>` otherwise |
| CoomerFeed.FeedLink | lib/routes/coomer/index.ts:144 | `https://coomer.st/posts` for `posts`, `https://coomer.st/<source>/user/<id>` otherwise |
| CoomerFeed.ListingMirrorsFeedLink | lib/routes/coomer/index.ts:49-51 | the API endpoint is the API root followed by the path of the feed link at line 144, in both branches |
| CoomerFeed.DefaultIsPosts | lib/routes/coomer/index.ts:45-66 | with no source: source `posts`, one request to `https://coomer.st/api/v1/posts`, no profile request, empty author, title "Coomer Posts", the favicon as image, and link `https://coomer.st/posts` |
| CoomerFeed.PerUserFields | lib/routes/coomer/index.ts:51-66 | a per-user source requests `/api/v1/<source>/user/<id>` and then its `/profile`, whose name is the author; title `Posts of <author> from <source> \| Coomer`; image `https://img.coomer.st/icons/<source>/<id>`; link `https://coomer.st/<source>/user/<id>` |
| CoomerFeed.ContentMarkup | lib/routes/coomer/index.ts:91-94 | the description before the splice: the content wrapped in `<div>...</div>` when it is truthy, and the empty string otherwise |
| CoomerFeed.ItemOf | lib/routes/coomer/index.ts:86-138 | the item of a post whose file list was built: render, splice, assemble, pick the enclosure, then the title, date, guid and link |
| CoomerFeed.Transform | lib/routes/coomer/index.ts:70-138 | the `.map` callback: the file list's TypeError, or the item (characterised by `CoomerFeed.TransformFacts`) |
| CoomerFeed.TransformFacts | lib/routes/coomer/index.ts:70-138 | a post becomes an item exactly when it has `file` and `attachments` and every attachment has a `path`, otherwise the TypeError of the first check that fails. The item carries: the guid, link, title and date; the feed's author; a description showing every media fragment once and in order; the enclosure of its last recognised source |
| CoomerFeed.ContentOnlyPostIsDated | lib/routes/coomer/index.ts:67-131 | a post with content, an empty `file`, an empty attachments array and an empty title passes the filter, has no files, and becomes an item titled with its date |
| CoomerFeed.TransformPost | lib/routes/coomer/index.ts:70-138 | the per-post callback, step by step (file loop, render, splice, assembly, enclosure loop) yields the transform's item or TypeError |
| CoomerFeed.CollectShape | lib/routes/coomer/index.ts:67-70 | `.map` with throwing callbacks succeeds exactly when every callback does and keeps every value in order; otherwise it fails with the first error |
| CoomerFeed.CollectStep | lib/routes/coomer/index.ts:70 | one more callback: an error ends the map, a value is appended |
| CoomerFeed.CollectPrefixError | lib/routes/coomer/index.ts:70 | once a callback throws, the whole map fails with that error |
| CoomerFeed.Handle | lib/routes/coomer/index.ts:43-147 | the handler's feed: title, image, link and the items of the surviving posts, or the first TypeError of the map (characterised by `CoomerFeed.HandleItems` together with `CoomerFeed.TransformFacts`) |
| CoomerFeed.HandleItems | lib/routes/coomer/index.ts:67-146 | the feed succeeds exactly when every surviving post has `file` and `attachments` and each of its attachments has a `path`. It then has the title, image and link of its source and holds min(limit, filtered) items, at most `limit`, in API order: item k is the transform of surviving post k, so it has that post's guid and link and the feed's author. Otherwise it fails with the error of the first surviving post whose transform fails |
| CoomerFeed.Handler | lib/routes/coomer/index.ts:43-147 | the handler's loop over the surviving posts returns the feed defined by `Handle`, or the first TypeError |

## Left out

- HTTP: the `got` requests for the listing and the profile, their headers and cookie, and request failures. The listing's posts and the profile's `name` are inputs; `CoomerFeed.Requests` only lists the URLs.
- `response.data.posts` versus `response.data`: the model receives the post list itself.
- Values the API could send as JSON `null`, and fields other than those the route reads.
- cheerio: parsing, the `img, a, audio, video` selection, `outerHTML`, `$.html()` serialisation and `replaceWith`. These are the `parse`, `media` and `sources` fields of `CoomerFeed.Html`. The description is a sequence of parts, not one string.
- What cheerio does with `replaceWith(undefined)` when a link's number passes the last fragment: the model keeps `Inserted(k, None)` in place of that anchor.
- The `art` template: the number and kind of fragments it renders for a file list is not stated.
- `parseDate`: dates stay symbolic as `ParsedDate(published)`.
- WHATWG URL resolution in `new URL(src, rootUrl)`, including inputs for which it throws: URLs stay symbolic as `Resolved(src, base)`.
- `Number.parseInt` of the `limit` query: the parsed limit is a `nat`. NaN, negative values and their `slice` semantics are not modelled.
- `toLowerCase()` beyond ASCII letters, and UTF-16 code units: strings are sequences of Unicode scalar values.
- The mutation of the post record (`i.files = []`): the file list is returned instead of stored on the post.
- The static `route` metadata: path, categories, radar, maintainers and description.
- Enclosures.PickEnclosure: the loop, and with it `CoomerFeed.Transform` and `CoomerFeed.Handle`, uses the corrected MIME lookup, so a source whose extension is "constructor" or "__proto__" sets no enclosure here, unlike the route as written (see Findings).
- An attachment without `name` gives an entry whose `name` is absent; the route stores `undefined` there, and how the template renders it is not stated.
- JsText.ExtensionOfOneLine: the clause "the text after the last '.'" holds only for paths without line terminators, because the regex `.` stops at a line terminator (`JsText.ExtensionNotIdempotentAcrossLines`, `JsText.StripSecondLine`); the no-'.' clause holds for every path (`JsText.ExtensionOfDotless`).
- JsText.ExtensionIdempotent: stated only for paths without line terminators, because the regex `.` stops at a line terminator and the property then fails (`JsText.ExtensionNotIdempotentAcrossLines`).

## Findings

| source | as written | input that shows it | evidently intended | confidence | as-written member | corrected member |
|---|---|---|---|---|---|---|
| lib/routes/coomer/index.ts:113-118 | `{ m4a: ..., mp3: ..., mp4: ... }[ext] \|\| null` indexes an ordinary object. It also finds the members inherited from `Object.prototype`, and "constructor" and "__proto__" are lower case and truthy | an `<audio><source src="x.constructor"></audio>` in a post: the extension is "constructor", the lookup yields the `Object` function, and the item gets `enclosure_type` set to that function | only m4a, mp3 and mp4 set an enclosure; every other extension is skipped | not executed; follows from ECMAScript property lookup | Enclosures.CandidateAsWritten (shown by Enclosures.InheritedNameSetsEnclosure) | Enclosures.Candidate (with Enclosures.MimeType and Enclosures.LastEnclosureWins) |
