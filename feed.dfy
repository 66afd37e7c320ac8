/** The route handler: the endpoint and feed fields chosen by the `posts` versus per-user
    branch, the per-post transform into a feed item, and the handler that filters, limits
    and maps the listing. The two API responses are inputs; the HTML template, parser and
    serialiser are the parameters in `Html`. */
module CoomerFeed {
  import opened Wrappers
  import opened JsText
  import opened Posts
  import opened Splice
  import opened Enclosures

  const ApiUrl: string := RootUrl + "/api/v1"
  const DefaultLimit: nat := 25

  /** `parseDate(published)`, kept symbolic: date parsing is not modelled. */
  datatype Date = ParsedDate(published: string)

  /** `i.title || parseDate(i.published)`. */
  datatype Title = Named(text: string) | Dated(date: Date)

  datatype Item = Item(
    title: Title,
    description: seq<Part>,
    author: string,
    pubDate: Date,
    guid: string,
    link: string,
    enclosure: Option<Enclosure>)

  datatype Feed = Feed(title: string, image: string, link: string, items: seq<Item>)

  /** The HTML collaborators, as functions of what the route hands them:
      `media` renders the post through the template and lists the outer HTML of its
      `img, a, audio, video` elements (`coomerFiles`); `parse` loads a description and lists
      its anchors and other content in document order; `sources` lists the `src` attribute of
      every `audio source, video source` element of the final description. */
  datatype Html = Html(
    media: (RawPost, seq<FileRef>) -> seq<string>,
    parse: string -> seq<Token>,
    sources: seq<Part> -> seq<Option<string>>)

  // ---------------------------------------------------------------------------
  // Item identity and links

  function Guid(p: RawPost): string {
    "coomer:" + p.service + ":" + p.user + ":post:" + p.id
  }

  function PostLink(p: RawPost): string {
    RootUrl + "/" + p.service + "/user/" + p.user + "/post/" + p.id
  }

  function ItemTitle(p: RawPost): Title {
    if Truthy(p.title) then Named(p.title.value) else Dated(ParsedDate(p.published))
  }

  /** The title is the post's own title when it is non-empty, otherwise its publish date. */
  lemma ItemTitleChoice(p: RawPost)
    ensures ItemTitle(p).Named? <==> p.title.Some? && p.title.value != ""
    ensures ItemTitle(p).Named? ==> ItemTitle(p).text == p.title.value
    ensures ItemTitle(p).Dated? ==> ItemTitle(p).date == ParsedDate(p.published)
  {
  }

  /** `s` without `prefix`, when it starts with it. */
  function DropPrefix(prefix: string, s: string): Option<string> {
    if prefix <= s then Some(s[|prefix|..]) else None
  }

  /** The text before the first `sep` of `s` and the text after it. */
  function SplitAt(s: string, sep: char): Option<(string, string)> {
    if s == [] then None
    else if s[0] == sep then Some(([], s[1..]))
    else
      match SplitAt(s[1..], sep)
      case None => None
      case Some(parts) => Some(([s[0]] + parts.0, parts.1))
  }

  lemma {:induction false} SplitAtJoin(a: string, sep: char, b: string)
    requires sep !in a
    ensures SplitAt(a + [sep] + b, sep) == Some((a, b))
  {
    if a != [] {
      assert (a + [sep] + b)[1..] == a[1..] + [sep] + b;
      SplitAtJoin(a[1..], sep, b);
      assert [a[0]] + a[1..] == a;
    } else {
      assert a + [sep] + b == [sep] + b;
    }
  }

  lemma DropPrefixJoin(prefix: string, s: string)
    ensures DropPrefix(prefix, prefix + s) == Some(s)
  {
    assert prefix <= prefix + s;
    assert (prefix + s)[|prefix|..] == s;
  }

  /** Reads service, user and id back out of a guid. */
  function ParseGuid(g: string): Option<(string, string, string)> {
    match DropPrefix("coomer:", g)
    case None => None
    case Some(rest) =>
      match SplitAt(rest, ':')
      case None => None
      case Some(first) =>
        match SplitAt(first.1, ':')
        case None => None
        case Some(second) =>
          match DropPrefix("post:", second.1)
          case None => None
          case Some(id) => Some((first.0, second.0, id))
  }

  /** The guid `coomer:<service>:<user>:post:<id>` determines the post it was built from,
      when service and user hold no ':'. */
  lemma GuidRoundTrip(p: RawPost)
    requires ':' !in p.service && ':' !in p.user
    ensures ParseGuid(Guid(p)) == Some((p.service, p.user, p.id))
  {
    var tail := "post:" + p.id;
    var mid := p.user + [':'] + tail;
    var rest := p.service + [':'] + mid;
    assert Guid(p) == "coomer:" + rest;
    DropPrefixJoin("coomer:", rest);
    SplitAtJoin(p.service, ':', mid);
    SplitAtJoin(p.user, ':', tail);
    DropPrefixJoin("post:", p.id);
  }

  /** Reads service, user and id back out of a post link. */
  function ParsePostLink(link: string): Option<(string, string, string)> {
    match DropPrefix(RootUrl + "/", link)
    case None => None
    case Some(rest) =>
      match SplitAt(rest, '/')
      case None => None
      case Some(first) =>
        match DropPrefix("user/", first.1)
        case None => None
        case Some(rest2) =>
          match SplitAt(rest2, '/')
          case None => None
          case Some(second) =>
            match DropPrefix("post/", second.1)
            case None => None
            case Some(id) => Some((first.0, second.0, id))
  }

  /** The link `https://coomer.st/<service>/user/<user>/post/<id>` determines the post it was
      built from, when service and user hold no '/'. */
  lemma PostLinkRoundTrip(p: RawPost)
    requires '/' !in p.service && '/' !in p.user
    ensures ParsePostLink(PostLink(p)) == Some((p.service, p.user, p.id))
  {
    var tail := "post/" + p.id;
    var mid := "user/" + (p.user + ['/'] + tail);
    var rest := p.service + ['/'] + mid;
    assert PostLink(p) == (RootUrl + "/") + rest;
    DropPrefixJoin(RootUrl + "/", rest);
    SplitAtJoin(p.service, '/', mid);
    DropPrefixJoin("user/", p.user + ['/'] + tail);
    SplitAtJoin(p.user, '/', tail);
    DropPrefixJoin("post/", p.id);
  }

  // ---------------------------------------------------------------------------
  // Feed-level fields

  /** `ctx.req.param('source') ?? 'posts'`. */
  function SourceOf(source: Option<string>): string {
    if source.Some? then source.value else "posts"
  }

  /** `${id}`: an absent id is interpolated as "undefined". */
  function IdText(id: Option<string>): string {
    if id.Some? then id.value else "undefined"
  }

  /** `ctx.req.query('limit') ? Number.parseInt(...) : 25`, with the parsed value given. */
  function LimitOf(limit: Option<nat>): nat {
    if limit.Some? then limit.value else DefaultLimit
  }

  /** `currentUrl`: the listing endpoint. */
  function ListingUrl(source: string, id: Option<string>): string {
    if source == "posts" then ApiUrl + "/posts" else ApiUrl + "/" + source + "/user/" + IdText(id)
  }

  /** The URLs the handler requests, in order: the listing, then (per-user only) the profile. */
  function Requests(source: string, id: Option<string>): seq<string> {
    var listing := ListingUrl(source, id);
    [listing] + (if source == "posts" then [] else [listing + "/profile"])
  }

  function Author(source: string, profileName: string): string {
    if source == "posts" then "" else profileName
  }

  function FeedTitle(source: string, author: string): string {
    if source == "posts" then "Coomer Posts" else "Posts of " + author + " from " + source + " | Coomer"
  }

  function FeedImage(source: string, id: Option<string>): string {
    if source == "posts" then RootUrl + "/favicon.ico"
    else "https://img.coomer.st/icons/" + source + "/" + IdText(id)
  }

  function FeedLink(source: string, id: Option<string>): string {
    if source == "posts" then RootUrl + "/posts" else RootUrl + "/" + source + "/user/" + IdText(id)
  }

  /** The API endpoint mirrors the site page the feed links to: both branches put the same
      path after the API root and after the site root. */
  lemma ListingMirrorsFeedLink(source: string, id: Option<string>)
    ensures RootUrl <= FeedLink(source, id)
    ensures ListingUrl(source, id) == ApiUrl + FeedLink(source, id)[|RootUrl|..]
  {
    var path := if source == "posts" then "/posts" else "/" + source + "/user/" + IdText(id);
    assert FeedLink(source, id) == RootUrl + path;
    assert ListingUrl(source, id) == ApiUrl + path;
    assert (RootUrl + path)[|RootUrl|..] == path;
  }

  /** Without a source the route serves the global timeline: one request, to `/api/v1/posts`,
      no profile lookup and an empty author, whatever the id. */
  lemma DefaultIsPosts(id: Option<string>, profileName: string)
    ensures SourceOf(None) == "posts"
    ensures Requests(SourceOf(None), id) == ["https://coomer.st/api/v1/posts"]
    ensures Author(SourceOf(None), profileName) == ""
    ensures FeedTitle(SourceOf(None), profileName) == "Coomer Posts"
    ensures FeedImage(SourceOf(None), id) == "https://coomer.st/favicon.ico"
    ensures FeedLink(SourceOf(None), id) == "https://coomer.st/posts"
  {
    assert ApiUrl + "/posts" == "https://coomer.st/api/v1/posts";
    assert RootUrl + "/favicon.ico" == "https://coomer.st/favicon.ico";
    assert RootUrl + "/posts" == "https://coomer.st/posts";
  }

  /** A per-user source requests the user's listing and then its profile, whose name is the
      author, and derives the image and link from source and id. */
  lemma PerUserFields(source: string, id: string, profileName: string)
    requires source != "posts"
    ensures Requests(source, Some(id)) ==
      ["https://coomer.st/api/v1/" + source + "/user/" + id,
       "https://coomer.st/api/v1/" + source + "/user/" + id + "/profile"]
    ensures Author(source, profileName) == profileName
    ensures FeedTitle(source, profileName) == "Posts of " + profileName + " from " + source + " | Coomer"
    ensures FeedImage(source, Some(id)) == "https://img.coomer.st/icons/" + source + "/" + id
    ensures FeedLink(source, Some(id)) == "https://coomer.st/" + source + "/user/" + id
  {
    assert ApiUrl + "/" == "https://coomer.st/api/v1/";
    assert RootUrl + "/" == "https://coomer.st/";
  }

  // ---------------------------------------------------------------------------
  // The per-post transform

  /** The description before the splice: the content wrapped in a `<div>`, or nothing. */
  function ContentMarkup(p: RawPost): string {
    if Truthy(p.content) then "<div>" + p.content.value + "</div>" else ""
  }

  /** The item for a post whose file list is `files`. */
  function ItemOf(p: RawPost, files: seq<FileRef>, author: string, html: Html): Item {
    var frags := html.media(p, files);
    var tokens := html.parse(ContentMarkup(p));
    var desc := Describe(frags, SpliceFrom(tokens, frags, 0), MatchCount(tokens));
    Item(ItemTitle(p), desc, author, ParsedDate(p.published), Guid(p), PostLink(p),
      LastEnclosure(html.sources(desc)))
  }

  /** The callback of `.map`: the item for one post, or the TypeError it throws. */
  function Transform(p: RawPost, author: string, html: Html): Result<Item, TypeError> {
    match FileList(p)
    case Err(e) => Err(e)
    case Ok(files) => Ok(ItemOf(p, files, author, html))
  }

  /** A post becomes an item exactly when it has a `file` object and an attachments array
      whose every element has a `path`;
      the item carries the post's guid, link, title and date, the feed's author, a
      description showing every media fragment once and in order, and the enclosure of the
      last recognised audio/video source of that description. */
  lemma TransformFacts(p: RawPost, author: string, html: Html)
    ensures Transform(p, author, html).Ok? <==>
      p.file.Some? && p.attachments.Some? && AllHavePaths(p.attachments.value)
    ensures p.file.None? ==> Transform(p, author, html) == Err(FileMissing)
    ensures p.file.Some? && p.attachments.None? ==> Transform(p, author, html) == Err(AttachmentsMissing)
    ensures p.file.Some? && p.attachments.Some? && !AllHavePaths(p.attachments.value) ==>
      Transform(p, author, html) == Err(AttachmentPathMissing)
    ensures Transform(p, author, html).Ok? ==>
      var item := Transform(p, author, html).value;
      var files := FileList(p).value;
      item.guid == Guid(p) && item.link == PostLink(p) && item.title == ItemTitle(p) &&
      item.author == author && item.pubDate == ParsedDate(p.published) &&
      FragmentsOf(item.description) == html.media(p, files) &&
      item.enclosure == LastEnclosure(html.sources(item.description))
  {
    FileListShape(p);
    if FileList(p).Ok? {
      var files := FileList(p).value;
      DescriptionShowsEveryFragment(html.parse(ContentMarkup(p)), html.media(p, files));
    }
  }

  /** Scenario: a post with content, an empty `file` object, no attachments and no title
      passes the filter and becomes an item titled with its publish date. */
  lemma ContentOnlyPostIsDated(p: RawPost, author: string, html: Html)
    requires p.content == Some("<p>hi</p>") && p.file == Some(FileObj(None, None))
    requires p.attachments == Some([]) && p.title == Some("")
    ensures PassesFilter(p)
    ensures FileList(p).Ok? && FileList(p).value == []
    ensures Transform(p, author, html).Ok?
    ensures Transform(p, author, html).value.title == Dated(ParsedDate(p.published))
  {
    var none: seq<FileRef> := [];
    assert MainFile(p.file.value) == none;
    assert AttachmentRefs(p.attachments.value) == none;
    assert FileList(p) == Ok(none + none);
  }

  /** The per-post transform as the route runs it: builds the file list, renders and parses,
      splices the anchors, assembles the description and picks the enclosure. */
  method TransformPost(p: RawPost, author: string, html: Html) returns (r: Result<Item, TypeError>)
    ensures r == Transform(p, author, html)
  {
    var files := BuildFiles(p);
    if files.Err? {
      return Err(files.error);
    }
    var frags := html.media(p, files.value);
    var tokens := html.parse(ContentMarkup(p));
    var doc, count := SpliceAnchors(tokens, frags);
    var desc := AssembleDescription(frags, doc, count);
    var enclosure := PickEnclosure(html.sources(desc));
    r := Ok(Item(ItemTitle(p), desc, author, ParsedDate(p.published), Guid(p), PostLink(p), enclosure));
  }

  // ---------------------------------------------------------------------------
  // The handler

  /** The outcome of `.map` over callbacks with outcomes `rs`, in order: every value, or the
      first error, which aborts the map. */
  function Collect<T, E>(rs: seq<Result<T, E>>): Result<seq<T>, E> {
    if rs == [] then Ok([])
    else
      var init := Collect(rs[..|rs| - 1]);
      var last := rs[|rs| - 1];
      if init.Err? then init
      else if last.Err? then Err(last.error)
      else Ok(init.value + [last.value])
  }

  /** `Collect` succeeds exactly when every outcome does, and then keeps every value in order;
      otherwise it fails with the first error. */
  lemma {:induction false} CollectShape<T, E>(rs: seq<Result<T, E>>)
    ensures Collect(rs).Ok? <==> forall k :: 0 <= k < |rs| ==> rs[k].Ok?
    ensures Collect(rs).Ok? ==>
      |Collect(rs).value| == |rs| && forall k :: 0 <= k < |rs| ==> Collect(rs).value[k] == rs[k].value
    ensures Collect(rs).Err? ==>
      exists k :: 0 <= k < |rs| && rs[k].Err? && Collect(rs).error == rs[k].error &&
        forall j :: 0 <= j < k ==> rs[j].Ok?
  {
    if rs != [] {
      var n := |rs| - 1;
      var init := rs[..n];
      CollectShape(init);
      assert forall k :: 0 <= k < n ==> init[k] == rs[k];
      if Collect(init).Err? {
        var k :| 0 <= k < |init| && init[k].Err? && Collect(init).error == init[k].error &&
          forall j :: 0 <= j < k ==> init[j].Ok?;
        assert rs[k].Err?;
      }
    }
  }

  /** One more outcome: an error ends the collection, a value is appended. */
  lemma CollectStep<T, E>(rs: seq<Result<T, E>>, i: nat)
    requires i < |rs| && Collect(rs[..i]).Ok?
    ensures Collect(rs[..i + 1]) ==
      if rs[i].Err? then Err(rs[i].error) else Ok(Collect(rs[..i]).value + [rs[i].value])
  {
    assert rs[..i + 1][..i] == rs[..i];
    assert rs[..i + 1][i] == rs[i];
  }

  /** Once a prefix of the outcomes fails, the whole map fails with the same error. */
  lemma {:induction false} CollectPrefixError<T, E>(rs: seq<Result<T, E>>, n: nat)
    requires n <= |rs| && Collect(rs[..n]).Err?
    ensures Collect(rs) == Collect(rs[..n])
    decreases |rs| - n
  {
    if n < |rs| {
      var m := |rs| - 1;
      assert rs[..n] == rs[..m][..n];
      CollectPrefixError(rs[..m], n);
    } else {
      assert rs[..n] == rs;
    }
  }

  function Transforms(posts: seq<RawPost>, author: string, html: Html): seq<Result<Item, TypeError>> {
    seq(|posts|, k requires 0 <= k < |posts| => Transform(posts[k], author, html))
  }

  /** The feed the handler returns for the given parameters and API responses: `listing` is
      the post list of the listing response and `profileName` the `name` of the profile
      response (read only for a per-user source). */
  function Handle(source: Option<string>, id: Option<string>, limit: Option<nat>,
                  listing: seq<RawPost>, profileName: string, html: Html): Result<Feed, TypeError>
  {
    var src := SourceOf(source);
    var author := Author(src, profileName);
    match Collect(Transforms(Surviving(listing, LimitOf(limit)), author, html))
    case Err(e) => Err(e)
    case Ok(items) => Ok(Feed(FeedTitle(src, author), FeedImage(src, id), FeedLink(src, id), items))
  }

  /** The feed carries the title, image and link of its source, and one item per surviving
      post, in API order: at most `limit` of them, each the transform of its post (so with that
      post's guid and link and the feed's author). It fails exactly when a surviving post lacks
      its `file` object or attachments array, or one of its attachments lacks a `path`, and then
      with the error of the first such post. */
  lemma HandleItems(source: Option<string>, id: Option<string>, limit: Option<nat>,
                    listing: seq<RawPost>, profileName: string, html: Html)
    ensures var posts := Surviving(listing, LimitOf(limit));
      Handle(source, id, limit, listing, profileName, html).Ok? <==>
        forall k :: 0 <= k < |posts| ==>
          posts[k].file.Some? && posts[k].attachments.Some? && AllHavePaths(posts[k].attachments.value)
    ensures var posts := Surviving(listing, LimitOf(limit));
      var r := Handle(source, id, limit, listing, profileName, html);
      r.Ok? ==>
        |r.value.items| == |posts| == Min(LimitOf(limit), |Filter(listing)|) &&
        |r.value.items| <= LimitOf(limit) &&
        forall k :: 0 <= k < |posts| ==>
          r.value.items[k].guid == Guid(posts[k]) &&
          r.value.items[k].link == PostLink(posts[k]) &&
          r.value.items[k].author == Author(SourceOf(source), profileName)
    ensures var src := SourceOf(source);
      var r := Handle(source, id, limit, listing, profileName, html);
      r.Ok? ==>
        r.value.title == FeedTitle(src, Author(src, profileName)) &&
        r.value.image == FeedImage(src, id) && r.value.link == FeedLink(src, id)
    ensures var posts := Surviving(listing, LimitOf(limit));
      var author := Author(SourceOf(source), profileName);
      var r := Handle(source, id, limit, listing, profileName, html);
      r.Ok? ==> forall k :: 0 <= k < |posts| ==>
        Transform(posts[k], author, html).Ok? &&
        r.value.items[k] == Transform(posts[k], author, html).value
    ensures var posts := Surviving(listing, LimitOf(limit));
      var author := Author(SourceOf(source), profileName);
      var r := Handle(source, id, limit, listing, profileName, html);
      r.Err? ==>
        exists k :: 0 <= k < |posts| && Transform(posts[k], author, html) == Err(r.error) &&
                    forall j :: 0 <= j < k ==> Transform(posts[j], author, html).Ok?
  {
    var posts := Surviving(listing, LimitOf(limit));
    var author := Author(SourceOf(source), profileName);
    SurvivingIsPrefix(listing, LimitOf(limit));
    var rs := Transforms(posts, author, html);
    CollectShape(rs);
    assert forall k :: 0 <= k < |posts| ==> rs[k] == Transform(posts[k], author, html);
    forall k | 0 <= k < |posts|
      ensures Transform(posts[k], author, html).Ok? <==>
        posts[k].file.Some? && posts[k].attachments.Some? && AllHavePaths(posts[k].attachments.value)
      ensures Transform(posts[k], author, html).Ok? ==>
        Transform(posts[k], author, html).value.guid == Guid(posts[k]) &&
        Transform(posts[k], author, html).value.link == PostLink(posts[k]) &&
        Transform(posts[k], author, html).value.author == author
    {
      TransformFacts(posts[k], author, html);
    }
  }

  /** The route handler, with the two API responses as inputs. */
  method Handler(source: Option<string>, id: Option<string>, limit: Option<nat>,
                 listing: seq<RawPost>, profileName: string, html: Html)
    returns (r: Result<Feed, TypeError>)
    ensures r == Handle(source, id, limit, listing, profileName, html)
  {
    var src := SourceOf(source);
    var author := Author(src, profileName);
    var posts := Surviving(listing, LimitOf(limit));
    ghost var rs := Transforms(posts, author, html);
    var items: seq<Item> := [];
    var i := 0;
    while i < |posts|
      invariant 0 <= i <= |posts|
      invariant Collect(rs[..i]) == Ok(items)
    {
      var item := TransformPost(posts[i], author, html);
      assert item == rs[i];
      CollectStep(rs, i);
      if item.Err? {
        CollectPrefixError(rs, i + 1);
        assert rs[..|rs|] == rs;
        return Err(item.error);
      }
      items := items + [item.value];
      i := i + 1;
    }
    assert rs[..i] == rs;
    r := Ok(Feed(FeedTitle(src, author), FeedImage(src, id), FeedLink(src, id), items));
  }
}
