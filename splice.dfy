/** The description of one item: the post's HTML with every fanbox download link replaced
    by a rendered media fragment, preceded by the first fragment and followed by the
    fragments no link consumed. The HTML parser and serialiser are abstracted: the parsed
    description is a sequence of tokens in document order. */
module Splice {
  import opened Wrappers
  import opened JsText
  import opened Posts

  /** One element of the parsed description, in document order: an `<a>` element with its
      `href` attribute (`None` when it has none), or any other content. */
  datatype Token = Anchor(href: Option<string>, markup: string) | Other(markup: string)

  /** The same element after the splice: kept as it was, or replaced by media fragment
      `index`, which is `None` when `coomerFiles[index]` is `undefined`. */
  datatype Node = Kept(token: Token) | Inserted(index: nat, fragment: Option<string>)

  /** A piece of the assembled description string: a media fragment's outer HTML, or the
      serialised spliced document (`$.html()`). */
  datatype Part = Fragment(html: string) | Page(nodes: seq<Node>)

  /** `regex.test(link!)` stringifies a missing `href` as "undefined". */
  function HrefText(href: Option<string>): string {
    if href.Some? then href.value else "undefined"
  }

  /** An anchor whose `href` matches `/downloads.fanbox.cc/`. A missing `href` becomes the string
      "undefined", which never matches (see `MatchesIsRegexTest`). */
  predicate Matches(t: Token) {
    t.Anchor? && t.href.Some? && FanboxTest(t.href.value)
  }

  /** `Matches` is exactly the route's `regex.test(link!)` on anchors. */
  lemma MatchesIsRegexTest(t: Token)
    ensures Matches(t) <==> t.Anchor? && FanboxTest(HrefText(t.href))
  {
    var u := HrefText(None);
    ShortTextNeverMatches(u);
  }

  /** `coomerFiles[k]`: the k-th fragment, or `undefined` past the end. */
  function FragmentAt(frags: seq<string>, k: nat): Option<string> {
    if k < |frags| then Some(frags[k]) else None
  }

  /** The number of matching anchors among `tokens`. */
  function MatchCount(tokens: seq<Token>): nat {
    if tokens == [] then 0
    else (if Matches(tokens[0]) then 1 else 0) + MatchCount(tokens[1..])
  }

  lemma {:induction false} MatchCountAppend(a: seq<Token>, b: seq<Token>)
    ensures MatchCount(a + b) == MatchCount(a) + MatchCount(b)
  {
    if a == [] {
      assert a + b == b;
    } else {
      assert (a + b)[1..] == a[1..] + b;
      MatchCountAppend(a[1..], b);
    }
  }

  /** The splice as a recursive definition: `count` anchors have matched before `tokens`, so
      the next matching anchor becomes fragment `count + 1`. */
  function SpliceFrom(tokens: seq<Token>, frags: seq<string>, count: nat): (doc: seq<Node>)
    ensures |doc| == |tokens|
  {
    if tokens == [] then []
    else if Matches(tokens[0]) then
      [Inserted(count + 1, FragmentAt(frags, count + 1))] + SpliceFrom(tokens[1..], frags, count + 1)
    else
      [Kept(tokens[0])] + SpliceFrom(tokens[1..], frags, count)
  }

  /** What the element at position `j` becomes: the k-th matching anchor in document order
      (counting from 1) is replaced by fragment k; everything else is kept. */
  function NodeAt(tokens: seq<Token>, frags: seq<string>, j: nat): Node
    requires j < |tokens|
  {
    var k := MatchCount(tokens[..j]) + 1;
    if Matches(tokens[j]) then Inserted(k, FragmentAt(frags, k)) else Kept(tokens[j])
  }

  /** One step of the splice: the first token, then the splice of the rest. */
  lemma SpliceCons(t: Token, rest: seq<Token>, frags: seq<string>, count: nat)
    ensures MatchCount([t] + rest) == (if Matches(t) then 1 else 0) + MatchCount(rest)
    ensures SpliceFrom([t] + rest, frags, count) ==
      if Matches(t) then [Inserted(count + 1, FragmentAt(frags, count + 1))] + SpliceFrom(rest, frags, count + 1)
      else [Kept(t)] + SpliceFrom(rest, frags, count)
  {
    assert ([t] + rest)[0] == t && ([t] + rest)[1..] == rest;
  }

  /** Splicing two token lists one after the other: the second continues the count. */
  lemma {:induction false} SpliceAppend(a: seq<Token>, b: seq<Token>, frags: seq<string>, count: nat)
    ensures SpliceFrom(a + b, frags, count) ==
      SpliceFrom(a, frags, count) + SpliceFrom(b, frags, count + MatchCount(a))
  {
    if a == [] {
      assert a + b == b;
    } else {
      var t, rest := a[0], a[1..];
      assert a == [t] + rest && a + b == [t] + (rest + b);
      SpliceCons(t, rest, frags, count);
      SpliceCons(t, rest + b, frags, count);
      var c' := if Matches(t) then count + 1 else count;
      SpliceAppend(rest, b, frags, c');
    }
  }

  /** The recursive definition agrees with the positional one at every position. */
  lemma SpliceFromAt(tokens: seq<Token>, frags: seq<string>, count: nat, j: nat)
    requires j < |tokens|
    ensures |SpliceFrom(tokens, frags, count)| == |tokens|
    ensures var k := count + MatchCount(tokens[..j]) + 1;
      SpliceFrom(tokens, frags, count)[j] ==
        if Matches(tokens[j]) then Inserted(k, FragmentAt(frags, k)) else Kept(tokens[j])
  {
    var pre, post := tokens[..j], tokens[j..];
    assert tokens == pre + post;
    SpliceAppend(pre, post, frags, count);
    assert post == [tokens[j]] + tokens[j + 1..];
    SpliceCons(tokens[j], tokens[j + 1..], frags, count + MatchCount(pre));
  }

  /** The `$('a').each(...)` pass: walks the anchors in document order, counts the matching
      ones and replaces the k-th by `coomerFiles[k]`. */
  method SpliceAnchors(tokens: seq<Token>, frags: seq<string>) returns (doc: seq<Node>, count: nat)
    ensures count == MatchCount(tokens)
    ensures |doc| == |tokens|
    ensures forall j :: 0 <= j < |tokens| ==> doc[j] == NodeAt(tokens, frags, j)
    ensures doc == SpliceFrom(tokens, frags, 0)
  {
    doc := seq(|tokens|, j requires 0 <= j < |tokens| => Kept(tokens[j]));
    count := 0;
    var i := 0;
    while i < |tokens|
      invariant 0 <= i <= |tokens| && |doc| == |tokens|
      invariant count == MatchCount(tokens[..i])
      invariant forall j :: 0 <= j < i ==> doc[j] == NodeAt(tokens, frags, j)
      invariant forall j :: i <= j < |tokens| ==> doc[j] == Kept(tokens[j])
    {
      if Matches(tokens[i]) {
        count := count + 1;
        doc := doc[i := Inserted(count, FragmentAt(frags, count))];
      }
      assert tokens[..i + 1] == tokens[..i] + [tokens[i]];
      MatchCountAppend(tokens[..i], [tokens[i]]);
      i := i + 1;
    }
    assert tokens[..i] == tokens;
    forall j | 0 <= j < |tokens|
      ensures SpliceFrom(tokens, frags, 0)[j] == doc[j]
    {
      SpliceFromAt(tokens, frags, 0, j);
    }
  }

  /** The fragments after index `count`: `coomerFiles.slice(count + 1)`. */
  function Unconsumed(frags: seq<string>, count: nat): seq<string> {
    if count + 1 <= |frags| then frags[count + 1..] else []
  }

  /** The assembled description: fragment 0 (nothing when there is none), the spliced page,
      then every fragment after index `count`. */
  function Describe(frags: seq<string>, doc: seq<Node>, count: nat): seq<Part> {
    var rest := Unconsumed(frags, count);
    (if |frags| > 0 then [Fragment(frags[0])] else []) + [Page(doc)]
      + seq(|rest|, j requires 0 <= j < |rest| => Fragment(rest[j]))
  }

  /** `desc = (coomerFiles.length > 0 ? coomerFiles[0] : '') + $.html()` followed by the
      `desc += coomerFile` loop over `coomerFiles.slice(count + 1)`. */
  method AssembleDescription(frags: seq<string>, doc: seq<Node>, count: nat) returns (desc: seq<Part>)
    ensures desc == Describe(frags, doc, count)
  {
    desc := (if |frags| > 0 then [Fragment(frags[0])] else []) + [Page(doc)];
    var head := desc;
    var rest := Unconsumed(frags, count);
    var i := 0;
    while i < |rest|
      invariant 0 <= i <= |rest|
      invariant desc == head + seq(i, j requires 0 <= j < i => Fragment(rest[j]))
    {
      desc := desc + [Fragment(rest[i])];
      i := i + 1;
    }
  }

  /** The fragments a spliced page shows, in document order (an `undefined` replacement
      shows none). */
  function InsertedFragments(doc: seq<Node>): seq<string> {
    if doc == [] then []
    else
      (if doc[0].Inserted? && doc[0].fragment.Some? then [doc[0].fragment.value] else [])
        + InsertedFragments(doc[1..])
  }

  /** Every media fragment a description shows, in order. */
  function FragmentsOf(desc: seq<Part>): seq<string> {
    if desc == [] then []
    else
      (match desc[0]
       case Fragment(h) => [h]
       case Page(doc) => InsertedFragments(doc))
        + FragmentsOf(desc[1..])
  }

  lemma {:induction false} FragmentsOfAppend(a: seq<Part>, b: seq<Part>)
    ensures FragmentsOf(a + b) == FragmentsOf(a) + FragmentsOf(b)
  {
    if a == [] {
      assert a + b == b;
    } else {
      assert (a + b)[1..] == a[1..] + b;
      FragmentsOfAppend(a[1..], b);
    }
  }

  lemma {:induction false} FragmentsOfPlain(rest: seq<string>)
    ensures FragmentsOf(seq(|rest|, j requires 0 <= j < |rest| => Fragment(rest[j]))) == rest
  {
    var parts := seq(|rest|, j requires 0 <= j < |rest| => Fragment(rest[j]));
    if rest != [] {
      assert parts[1..] == seq(|rest[1..]|, j requires 0 <= j < |rest[1..]| => Fragment(rest[1..][j]));
      FragmentsOfPlain(rest[1..]);
      assert rest == [rest[0]] + rest[1..];
    }
  }

  lemma InsertedFragmentsCons(n: Node, rest: seq<Node>)
    ensures InsertedFragments([n] + rest) ==
      (if n.Inserted? && n.fragment.Some? then [n.fragment.value] else []) + InsertedFragments(rest)
  {
    assert ([n] + rest)[0] == n && ([n] + rest)[1..] == rest;
  }

  /** The slice of fragments a page shows, from `count + 1` and `m` fragments long, as far
      as they exist. */
  function Window(frags: seq<string>, count: nat, m: nat): seq<string> {
    frags[Min(count + 1, |frags|)..Min(count + m + 1, |frags|)]
  }

  /** A window that starts with a fragment is that fragment followed by the next window. */
  lemma WindowStep(frags: seq<string>, count: nat, m: nat)
    ensures Window(frags, count, m + 1) == FragmentAtList(frags, count + 1) + Window(frags, count + 1, m)
  {
    var lo, mid, hi := Min(count + 1, |frags|), Min(count + 2, |frags|), Min(count + m + 2, |frags|);
    assert frags[lo..hi] == frags[lo..mid] + frags[mid..hi];
  }

  /** The fragment a replaced anchor shows: one, or none past the end. */
  function FragmentAtList(frags: seq<string>, k: nat): seq<string> {
    if k < |frags| then [frags[k]] else []
  }

  /** The spliced page shows fragments `count + 1` up to the last one a matching anchor
      asked for, those that exist. */
  lemma {:induction false} SplicedFragments(tokens: seq<Token>, frags: seq<string>, count: nat)
    ensures InsertedFragments(SpliceFrom(tokens, frags, count)) == Window(frags, count, MatchCount(tokens))
  {
    if tokens != [] {
      var t, rest := tokens[0], tokens[1..];
      assert tokens == [t] + rest;
      SpliceCons(t, rest, frags, count);
      if Matches(t) {
        SplicedFragments(rest, frags, count + 1);
        InsertedFragmentsCons(Inserted(count + 1, FragmentAt(frags, count + 1)), SpliceFrom(rest, frags, count + 1));
        WindowStep(frags, count, MatchCount(rest));
      } else {
        SplicedFragments(rest, frags, count);
        InsertedFragmentsCons(Kept(t), SpliceFrom(rest, frags, count));
      }
    }
  }

  /** `coomerFiles.slice(count + 1)` is the suffix of the fragments from index `count + 1`. */
  lemma UnconsumedIsSuffix(frags: seq<string>, count: nat)
    ensures Unconsumed(frags, count) == frags[Min(count + 1, |frags|)..]
  {
  }

  lemma FragmentsOfOne(p: Part)
    ensures FragmentsOf([p]) == match p
      case Fragment(h) => [h]
      case Page(doc) => InsertedFragments(doc)
  {
    assert [p][1..] == [];
  }

  /** The description shows fragment 0, then what the page shows, then the unconsumed
      fragments. */
  lemma DescribeFragments(frags: seq<string>, doc: seq<Node>, count: nat)
    ensures FragmentsOf(Describe(frags, doc, count)) ==
      frags[..Min(1, |frags|)] + InsertedFragments(doc) + Unconsumed(frags, count)
  {
    var rest := Unconsumed(frags, count);
    var head: seq<Part> := if |frags| > 0 then [Fragment(frags[0])] else [];
    var tail := seq(|rest|, j requires 0 <= j < |rest| => Fragment(rest[j]));
    assert Describe(frags, doc, count) == head + [Page(doc)] + tail;
    FragmentsOfAppend(head + [Page(doc)], tail);
    FragmentsOfAppend(head, [Page(doc)]);
    FragmentsOfPlain(rest);
    FragmentsOfOne(Page(doc));
    if |frags| > 0 {
      FragmentsOfOne(Fragment(frags[0]));
      assert frags[..1] == [frags[0]];
    }
  }

  /** A page that shows fragments 1..count, placed after fragment 0 and before the
      unconsumed ones, completes the fragment list. */
  lemma DescribeWindow(frags: seq<string>, doc: seq<Node>, count: nat)
    requires InsertedFragments(doc) == Window(frags, 0, count)
    ensures FragmentsOf(Describe(frags, doc, count)) == frags
  {
    DescribeFragments(frags, doc, count);
    UnconsumedIsSuffix(frags, count);
    var m1, m := Min(1, |frags|), Min(count + 1, |frags|);
    assert m1 <= m <= |frags|;
    assert frags[..m] == frags[..m1] + frags[m1..m];
    assert frags == frags[..m] + frags[m..];
  }

  /** Every media fragment appears in the description exactly once and in order: fragment 0
      first, fragments 1..count in place of the matching anchors, the rest after the page. */
  lemma DescriptionShowsEveryFragment(tokens: seq<Token>, frags: seq<string>)
    ensures var count := MatchCount(tokens);
      FragmentsOf(Describe(frags, SpliceFrom(tokens, frags, 0), count)) == frags
  {
    SplicedFragments(tokens, frags, 0);
    DescribeWindow(frags, SpliceFrom(tokens, frags, 0), MatchCount(tokens));
  }

  /** A token list with no matching anchor has none at any position. */
  lemma {:induction false} NoMatchAnywhere(tokens: seq<Token>, j: nat)
    requires MatchCount(tokens) == 0 && j < |tokens|
    ensures !Matches(tokens[j])
  {
    if j > 0 {
      NoMatchAnywhere(tokens[1..], j - 1);
    }
  }

  /** With no matching anchor every element of the page is kept. */
  lemma NoMatchKeepsTokens(tokens: seq<Token>, frags: seq<string>)
    requires MatchCount(tokens) == 0
    ensures |SpliceFrom(tokens, frags, 0)| == |tokens|
    ensures forall j :: 0 <= j < |tokens| ==> SpliceFrom(tokens, frags, 0)[j] == Kept(tokens[j])
  {
    forall j | 0 <= j < |tokens|
      ensures SpliceFrom(tokens, frags, 0)[j] == Kept(tokens[j])
    {
      SpliceFromAt(tokens, frags, 0, j);
      NoMatchAnywhere(tokens, j);
    }
  }

  /** With nothing consumed, the page sits between fragment 0 and fragment 1, followed by
      every other fragment in order. */
  lemma DescribeNoneConsumed(frags: seq<string>, doc: seq<Node>)
    ensures var desc := Describe(frags, doc, 0);
      |desc| == |frags| + 1 &&
      (|frags| > 0 ==> desc[0] == Fragment(frags[0]) && desc[1] == Page(doc)) &&
      forall j :: 1 <= j < |frags| ==> desc[j + 1] == Fragment(frags[j])
  {
  }

  /** With no matching anchor nothing in the page changes, and the page sits between
      fragment 0 and fragment 1, followed by every other fragment in order. */
  lemma NoMatchKeepsContent(tokens: seq<Token>, frags: seq<string>)
    requires MatchCount(tokens) == 0
    ensures forall j :: 0 <= j < |tokens| ==> SpliceFrom(tokens, frags, 0)[j] == Kept(tokens[j])
    ensures |SpliceFrom(tokens, frags, 0)| == |tokens|
    ensures var desc := Describe(frags, SpliceFrom(tokens, frags, 0), 0);
      |desc| == |frags| + 1 &&
      (|frags| > 0 ==> desc[0] == Fragment(frags[0]) && desc[1] == Page(SpliceFrom(tokens, frags, 0))) &&
      forall j :: 1 <= j < |frags| ==> desc[j + 1] == Fragment(frags[j])
  {
    NoMatchKeepsTokens(tokens, frags);
    DescribeNoneConsumed(frags, SpliceFrom(tokens, frags, 0));
  }

  /** When every fragment after the first is consumed, the description is fragment 0 and
      the page. */
  lemma DescribeAllConsumed(frags: seq<string>, doc: seq<Node>, count: nat)
    requires 0 < |frags| <= count + 1
    ensures Describe(frags, doc, count) == [Fragment(frags[0]), Page(doc)]
  {
    assert Unconsumed(frags, count) == [];
  }

  /** The splice of other content followed by a matching anchor, after one match. */
  lemma OtherThenLinkSplice(o: Token, a2: Token, frags: seq<string>)
    requires !Matches(o) && Matches(a2) && |frags| == 3
    ensures MatchCount([o, a2]) == 1
    ensures SpliceFrom([o, a2], frags, 1) == [Kept(o), Inserted(2, Some(frags[2]))]
  {
    var none: seq<Token> := [];
    SpliceCons(a2, none, frags, 1);
    assert [a2] + none == [a2];
    SpliceCons(o, [a2], frags, 1);
    assert [o] + [a2] == [o, a2];
  }

  /** The splice of two matching anchors around other content. */
  lemma TwoLinksSplice(a1: Token, o: Token, a2: Token, frags: seq<string>)
    requires Matches(a1) && !Matches(o) && Matches(a2) && |frags| == 3
    ensures MatchCount([a1, o, a2]) == 2
    ensures SpliceFrom([a1, o, a2], frags, 0) ==
      [Inserted(1, Some(frags[1])), Kept(o), Inserted(2, Some(frags[2]))]
  {
    var tail := [o, a2];
    OtherThenLinkSplice(o, a2, frags);
    SpliceCons(a1, tail, frags, 0);
    assert [a1] + tail == [a1, o, a2];
  }

  /** Two matching anchors around other content and three fragments: fragment 0 leads,
      fragments 1 and 2 take the anchors' places, and nothing is appended. */
  lemma TwoLinksThreeFragments(a1: Token, o: Token, a2: Token, frags: seq<string>)
    requires Matches(a1) && !Matches(o) && Matches(a2) && |frags| == 3
    ensures var tokens := [a1, o, a2];
      var doc := SpliceFrom(tokens, frags, 0);
      MatchCount(tokens) == 2 &&
      Describe(frags, doc, MatchCount(tokens)) ==
        [Fragment(frags[0]), Page([Inserted(1, Some(frags[1])), Kept(o), Inserted(2, Some(frags[2]))])]
  {
    TwoLinksSplice(a1, o, a2, frags);
    DescribeAllConsumed(frags, SpliceFrom([a1, o, a2], frags, 0), 2);
  }
}
