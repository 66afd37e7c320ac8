/** The posts the content API returns, the filter and limit applied to them, and the
    file list the route attaches to each post before rendering its media. */
module Posts {
  import opened Wrappers
  import opened JsText

  /** `post.file`: `{}` when the post has no main file, otherwise it carries a `path`. */
  datatype FileObj = FileObj(name: Option<string>, path: Option<string>)

  /** One element of `post.attachments`; either field may be absent from the JSON. */
  datatype Attachment = Attachment(name: Option<string>, path: Option<string>)

  /** One element of the listing, with the fields the route reads. */
  datatype RawPost = RawPost(
    id: string,
    service: string,
    user: string,
    title: Option<string>,
    content: Option<string>,
    published: string,
    file: Option<FileObj>,
    attachments: Option<seq<Attachment>>)

  /** One entry of `i.files`. */
  datatype FileRef = FileRef(name: Option<string>, path: string, extension: string)

  /** The TypeError a malformed post raises inside the per-post map, which aborts the feed. */
  datatype TypeError =
    | FileMissing         // `'path' in i.file` with no `file` object
    | AttachmentsMissing  // `for (const attachment of i.attachments)` with no `attachments`
    | AttachmentPathMissing  // `attachment.path.replace(...)` on an attachment without `path`

  /** JavaScript truthiness of an optional string: present and non-empty. */
  predicate Truthy(s: Option<string>) {
    s.Some? && s.value != ""
  }

  /** The filter callback `i.content || i.attachments`; any attachments array, even an
      empty one, is truthy. */
  predicate PassesFilter(p: RawPost) {
    Truthy(p.content) || p.attachments.Some?
  }

  /** `posts.filter(i => i.content || i.attachments)`. */
  function Filter(posts: seq<RawPost>): seq<RawPost> {
    if posts == [] then []
    else (if PassesFilter(posts[0]) then [posts[0]] else []) + Filter(posts[1..])
  }

  /** The filter keeps exactly the posts that have content or an attachments array. */
  lemma {:induction false} FilterMembers(posts: seq<RawPost>)
    ensures |Filter(posts)| <= |posts|
    ensures forall p :: p in Filter(posts) <==> p in posts && PassesFilter(p)
  {
    if posts != [] {
      FilterMembers(posts[1..]);
      assert posts == [posts[0]] + posts[1..];
    }
  }

  /** The filter keeps the API order: filtering a concatenation filters each part in turn. */
  lemma {:induction false} FilterAppend(a: seq<RawPost>, b: seq<RawPost>)
    ensures Filter(a + b) == Filter(a) + Filter(b)
  {
    if a == [] {
      assert a + b == b;
    } else {
      assert (a + b)[1..] == a[1..] + b;
      FilterAppend(a[1..], b);
    }
  }

  function Min(a: nat, b: nat): nat {
    if a <= b then a else b
  }

  /** `.filter(...).slice(0, limit)`: the posts the route turns into items. */
  function Surviving(posts: seq<RawPost>, limit: nat): seq<RawPost> {
    var kept := Filter(posts);
    kept[..Min(limit, |kept|)]
  }

  /** The surviving posts are the first `limit` posts that pass the filter, in API order. */
  lemma SurvivingIsPrefix(posts: seq<RawPost>, limit: nat)
    ensures var r := Surviving(posts, limit);
      |r| == Min(limit, |Filter(posts)|) && |r| <= limit && r <= Filter(posts)
    ensures forall p :: p in Surviving(posts, limit) ==> p in posts && PassesFilter(p)
  {
    FilterMembers(posts);
    var kept := Filter(posts);
    forall p | p in Surviving(posts, limit)
      ensures p in kept
    {
      var k :| 0 <= k < |Surviving(posts, limit)| && Surviving(posts, limit)[k] == p;
      assert kept[k] == p;
    }
  }

  /** A post with content but an empty attachments list passes the filter, and so does a
      post with no content and an empty attachments list; only a post with neither content
      nor an attachments array is dropped. */
  lemma FilterExamples(p: RawPost)
    ensures p.content == Some("<p>hi</p>") ==> PassesFilter(p)
    ensures p.content.None? && p.attachments == Some([]) ==> PassesFilter(p)
    ensures (p.content.None? || p.content == Some("")) && p.attachments.None? ==> !PassesFilter(p)
  {
  }

  function RefOf(name: Option<string>, path: string): FileRef {
    FileRef(name, path, Extension(path))
  }

  /** The entry for the main file, pushed only when `file` has a `path`. */
  function MainFile(f: FileObj): seq<FileRef> {
    if f.path.Some? then [RefOf(f.name, f.path.value)] else []
  }

  /** Every attachment carries a `path`, so none of them makes the loop throw. */
  predicate AllHavePaths(atts: seq<Attachment>) {
    forall i :: 0 <= i < |atts| ==> atts[i].path.Some?
  }

  function AttachmentRefs(atts: seq<Attachment>): seq<FileRef>
    requires AllHavePaths(atts)
  {
    seq(|atts|, i requires 0 <= i < |atts| => RefOf(atts[i].name, atts[i].path.value))
  }

  /** The value of `i.files` once the loop has run, or the TypeError it stops on. */
  function FileList(p: RawPost): Result<seq<FileRef>, TypeError> {
    if p.file.None? then Err(FileMissing)
    else if p.attachments.None? then Err(AttachmentsMissing)
    else if !AllHavePaths(p.attachments.value) then Err(AttachmentPathMissing)
    else Ok(MainFile(p.file.value) + AttachmentRefs(p.attachments.value))
  }

  /** The entry of attachment `i` follows the main file's entry, if there is one. */
  lemma FileListEntry(p: RawPost, i: nat)
    requires p.file.Some? && p.attachments.Some? && AllHavePaths(p.attachments.value)
    requires i < |p.attachments.value|
    ensures var atts := p.attachments.value;
      var offset := |MainFile(p.file.value)|;
      offset + i < |FileList(p).value| &&
      FileList(p).value[offset + i] == RefOf(atts[i].name, atts[i].path.value)
  {
    var head := MainFile(p.file.value);
    var refs := AttachmentRefs(p.attachments.value);
    assert (head + refs)[|head| + i] == refs[i];
  }

  /** The file list holds the main file first exactly when `file` has a `path`, then one entry
      per attachment in order; construction fails exactly when `file` or `attachments` is absent
      or some attachment has no `path`, and the first of these checks to fail names the error. */
  lemma FileListShape(p: RawPost)
    ensures FileList(p).Ok? <==>
      p.file.Some? && p.attachments.Some? && AllHavePaths(p.attachments.value)
    ensures p.file.None? ==> FileList(p) == Err(FileMissing)
    ensures p.file.Some? && p.attachments.None? ==> FileList(p) == Err(AttachmentsMissing)
    ensures (p.file.Some? && p.attachments.Some? &&
             exists i :: 0 <= i < |p.attachments.value| && p.attachments.value[i].path.None?) ==>
      FileList(p) == Err(AttachmentPathMissing)
    ensures FileList(p).Ok? ==>
      var files := FileList(p).value;
      var atts := p.attachments.value;
      var main := p.file.value;
      var offset := if main.path.Some? then 1 else 0;
      |files| == offset + |atts| &&
      (main.path.Some? ==> files[0] == FileRef(main.name, main.path.value, Extension(main.path.value))) &&
      forall i :: 0 <= i < |atts| ==>
        files[offset + i] == FileRef(atts[i].name, atts[i].path.value, Extension(atts[i].path.value))
  {
    if FileList(p).Ok? {
      forall i | 0 <= i < |p.attachments.value|
        ensures var offset := |MainFile(p.file.value)|;
          FileList(p).value[offset + i] == RefOf(p.attachments.value[i].name, p.attachments.value[i].path.value)
      {
        FileListEntry(p, i);
      }
    }
  }

  /** Every entry's extension is the one derived from its own path, and it is lower case. */
  lemma FileListExtensions(p: RawPost)
    requires FileList(p).Ok?
    ensures forall f :: f in FileList(p).value ==>
      f.extension == Extension(f.path) && IsLowerCase(f.extension)
  {
    forall f | f in FileList(p).value
      ensures f.extension == Extension(f.path) && IsLowerCase(f.extension)
    {
      ToLowerIsLower(StripThroughDot(f.path));
    }
  }

  /** No extension holds a '.' when the paths are single lines. */
  lemma FileListExtensionsHaveNoDot(p: RawPost)
    requires FileList(p).Ok?
    requires forall f :: f in FileList(p).value ==> NoLineTerminator(f.path)
    ensures forall f :: f in FileList(p).value ==> '.' !in f.extension
  {
    FileListExtensions(p);
    forall f | f in FileList(p).value
      ensures '.' !in f.extension
    {
      ExtensionOfOneLine(f.path);
    }
  }

  /** The loop that fills `i.files`: the main file if it has a `path`, then each attachment. */
  method BuildFiles(p: RawPost) returns (r: Result<seq<FileRef>, TypeError>)
    ensures r == FileList(p)
  {
    if p.file.None? {
      return Err(FileMissing);
    }
    var main := p.file.value;
    var files: seq<FileRef> := [];
    if main.path.Some? {
      files := files + [RefOf(main.name, main.path.value)];
    }
    if p.attachments.None? {
      return Err(AttachmentsMissing);
    }
    var atts := p.attachments.value;
    var i := 0;
    while i < |atts|
      invariant 0 <= i <= |atts|
      invariant AllHavePaths(atts[..i])
      invariant files == MainFile(main) + AttachmentRefs(atts[..i])
    {
      if atts[i].path.None? {
        assert !AllHavePaths(atts);
        return Err(AttachmentPathMissing);
      }
      files := files + [RefOf(atts[i].name, atts[i].path.value)];
      i := i + 1;
    }
    assert atts[..i] == atts;
    return Ok(files);
  }
}
