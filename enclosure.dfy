/** The enclosure of an item: every `<source>` under an `<audio>` or `<video>` of the final
    description whose extension the MIME table knows sets `enclosure_url` and
    `enclosure_type`, so the last such source wins. */
module Enclosures {
  import opened Wrappers
  import opened JsText

  const RootUrl: string := "https://coomer.st"

  /** `new URL(src, base).toString()`, kept symbolic: URL resolution is not modelled. */
  datatype Url = Resolved(src: string, base: string)

  datatype Enclosure = Enclosure(url: Url, mimeType: string)

  /** The route's MIME table: only m4a, mp3 and mp4 are recognised. */
  function MimeType(ext: string): (m: Option<string>)
    ensures m.Some? <==> ext == "m4a" || ext == "mp3" || ext == "mp4"
    ensures m.Some? ==> m.value == "audio/mp4" || m.value == "audio/mpeg" || m.value == "video/mp4"
  {
    if ext == "m4a" then Some("audio/mp4")
    else if ext == "mp3" then Some("audio/mpeg")
    else if ext == "mp4" then Some("video/mp4")
    else None
  }

  /** `$(this).attr('src') ?? ''`. */
  function SrcText(src: Option<string>): string {
    if src.Some? then src.value else ""
  }

  /** The enclosure one `<source>` element would set, if its extension is recognised. */
  function Candidate(src: Option<string>): Option<Enclosure> {
    var s := SrcText(src);
    var m := MimeType(Extension(s));
    if m.None? then None else Some(Enclosure(Resolved(s, RootUrl), m.value))
  }

  /** The last present value of `xs`: what a variable holds after a loop that overwrites it
      with every present value in turn. */
  function LastSome<T>(xs: seq<Option<T>>): Option<T> {
    if xs == [] then None
    else if xs[|xs| - 1].Some? then xs[|xs| - 1]
    else LastSome(xs[..|xs| - 1])
  }

  /** `LastSome` is present exactly when some value is. */
  lemma {:induction false} LastSomePresent<T>(xs: seq<Option<T>>)
    ensures LastSome(xs).Some? <==> exists i :: 0 <= i < |xs| && xs[i].Some?
  {
    if xs != [] {
      var n := |xs| - 1;
      var init := xs[..n];
      LastSomePresent(init);
      assert forall i :: 0 <= i < n ==> init[i] == xs[i];
    }
  }

  /** A present `LastSome` is the value at a position after which every value is absent. */
  lemma {:induction false} LastSomeIsLast<T>(xs: seq<Option<T>>)
    requires LastSome(xs).Some?
    ensures exists i :: 0 <= i < |xs| && LastSome(xs) == xs[i] && forall j :: i < j < |xs| ==> xs[j].None?
  {
    var n := |xs| - 1;
    if xs[n].Some? {
      assert LastSome(xs) == xs[n];
    } else {
      var init := xs[..n];
      assert LastSome(xs) == LastSome(init);
      LastSomeIsLast(init);
      var i :| 0 <= i < |init| && LastSome(init) == init[i] && forall j :: i < j < |init| ==> init[j].None?;
      assert init[i] == xs[i];
      forall j | i < j < |xs|
        ensures xs[j].None?
      {
        if j < n {
          assert init[j] == xs[j];
        }
      }
    }
  }

  /** `LastSome` is present exactly when some value is, and then it is the value at a position
      after which every value is absent. */
  lemma LastSomeWins<T>(xs: seq<Option<T>>)
    ensures LastSome(xs).Some? <==> exists i :: 0 <= i < |xs| && xs[i].Some?
    ensures LastSome(xs).Some? ==>
      exists i :: 0 <= i < |xs| && LastSome(xs) == xs[i] && forall j :: i < j < |xs| ==> xs[j].None?
  {
    LastSomePresent(xs);
    if LastSome(xs).Some? {
      LastSomeIsLast(xs);
    }
  }

  function Candidates(sources: seq<Option<string>>): seq<Option<Enclosure>> {
    seq(|sources|, i requires 0 <= i < |sources| => Candidate(sources[i]))
  }

  /** The enclosure left after visiting `sources` in document order. */
  function LastEnclosure(sources: seq<Option<string>>): Option<Enclosure> {
    LastSome(Candidates(sources))
  }

  /** An enclosure is set exactly when some source is recognised, and then it is the one of
      the last recognised source: every later source is skipped. */
  lemma LastEnclosureWins(sources: seq<Option<string>>)
    ensures LastEnclosure(sources).Some? <==> exists i :: 0 <= i < |sources| && Candidate(sources[i]).Some?
    ensures LastEnclosure(sources).Some? ==>
      exists i :: 0 <= i < |sources| && LastEnclosure(sources) == Candidate(sources[i]) &&
        forall j :: i < j < |sources| ==> Candidate(sources[j]).None?
  {
    var cs := Candidates(sources);
    assert forall i :: 0 <= i < |sources| ==> cs[i] == Candidate(sources[i]);
    LastSomeWins(cs);
    if LastSome(cs).Some? {
      var i :| 0 <= i < |cs| && LastSome(cs) == cs[i] && forall j :: i < j < |cs| ==> cs[j].None?;
      assert LastEnclosure(sources) == Candidate(sources[i]);
    }
  }

  /** Visiting one more source: a recognised one replaces the enclosure, any other leaves
      it. */
  lemma LastEnclosureStep(sources: seq<Option<string>>, i: nat)
    requires i < |sources|
    ensures LastEnclosure(sources[..i + 1]) ==
      if Candidate(sources[i]).Some? then Candidate(sources[i]) else LastEnclosure(sources[..i])
  {
    var cs := Candidates(sources[..i + 1]);
    assert cs[i] == Candidate(sources[i]);
    assert cs[..i] == Candidates(sources[..i]);
  }

  /** The `.each` over `audio source, video source`: a recognised source overwrites
      `enclosureInfo`; any other is skipped. */
  method PickEnclosure(sources: seq<Option<string>>) returns (e: Option<Enclosure>)
    ensures e == LastEnclosure(sources)
  {
    e := None;
    var i := 0;
    while i < |sources|
      invariant 0 <= i <= |sources|
      invariant e == LastEnclosure(sources[..i])
    {
      var src := SrcText(sources[i]);
      var mime := MimeType(Extension(src));
      if mime.Some? {
        e := Some(Enclosure(Resolved(src, RootUrl), mime.value));
      }
      LastEnclosureStep(sources, i);
      i := i + 1;
    }
    assert sources[..i] == sources;
  }

  lemma LastSomeSingle<T>(x: Option<T>)
    ensures LastSome([x]) == x
  {
    assert [x][..0] == [];
  }

  /** The enclosure a single source sets is its candidate. */
  lemma SingleSource(src: Option<string>)
    ensures LastEnclosure([src]) == Candidate(src)
  {
    assert Candidates([src]) == [Candidate(src)];
    LastSomeSingle(Candidate(src));
  }

  /** A single audio source ending in ".mp3" yields an `audio/mpeg` enclosure at its resolved
      URL. */
  lemma SingleMp3Source(base: string, ext: string)
    requires NoLineTerminator(base) && ext == "mp3"
    ensures LastEnclosure([Some(base + "." + ext)]) ==
      Some(Enclosure(Resolved(base + "." + ext, RootUrl), "audio/mpeg"))
  {
    assert IsLowerAlnum(ext);
    ExtensionOfWord(base, ext);
    SingleSource(Some(base + "." + ext));
  }

  /** A single source ending in ".webm" yields no enclosure. */
  lemma SingleWebmSource(base: string, ext: string)
    requires NoLineTerminator(base) && ext == "webm"
    ensures LastEnclosure([Some(base + "." + ext)]) == None
  {
    assert IsLowerAlnum(ext);
    ExtensionOfWord(base, ext);
    SingleSource(Some(base + "." + ext));
  }

  /** What the source's lookup `{ m4a: ..., mp3: ..., mp4: ... }[ext] || null` evaluates to:
      a string, `null`, or an object inherited from `Object.prototype`. */
  datatype JsValue = JsString(s: string) | JsInherited(name: string) | JsNull

  /** The lookup as written: indexing a plain object literal also finds the members it
      inherits from `Object.prototype`; of those, only `constructor` and `__proto__` are
      spelled in lower case, so only they can be produced by `toLowerCase()`. Both are truthy. */
  function LookupAsWritten(ext: string): JsValue {
    if ext == "m4a" then JsString("audio/mp4")
    else if ext == "mp3" then JsString("audio/mpeg")
    else if ext == "mp4" then JsString("video/mp4")
    else if ext == "constructor" || ext == "__proto__" then JsInherited(ext)
    else JsNull
  }

  /** The `enclosure_url`/`enclosure_type` pair one `<source>` sets under the lookup as
      written (`mimeType === null` skips it). */
  function CandidateAsWritten(src: Option<string>): Option<(Url, JsValue)> {
    var s := SrcText(src);
    var m := LookupAsWritten(Extension(s));
    if m == JsNull then None else Some((Resolved(s, RootUrl), m))
  }

  /** The lookup as written and the MIME table agree except on the two inherited names. */
  lemma AsWrittenAgreesOutsideInherited(src: Option<string>)
    requires Extension(SrcText(src)) != "constructor" && Extension(SrcText(src)) != "__proto__"
    ensures CandidateAsWritten(src).Some? <==> Candidate(src).Some?
    ensures Candidate(src).Some? ==>
      CandidateAsWritten(src) == Some((Candidate(src).value.url, JsString(Candidate(src).value.mimeType)))
  {
  }

  /** A source whose extension is "constructor" is skipped by the MIME table but, under the
      lookup as written, sets an enclosure whose type is the inherited `Object` function. */
  lemma InheritedCandidate(src: Option<string>)
    requires Extension(SrcText(src)) == "constructor"
    ensures CandidateAsWritten(src) == Some((Resolved(SrcText(src), RootUrl), JsInherited("constructor")))
    ensures Candidate(src) == None
  {
  }

  /** A source "<base>.constructor" sets an enclosure whose type is the `Object` function
      under the lookup as written, while the MIME table skips it. */
  lemma InheritedNameSetsEnclosure(base: string, name: string)
    requires NoLineTerminator(base) && name == "constructor"
    ensures CandidateAsWritten(Some(base + "." + name)) ==
      Some((Resolved(base + "." + name, RootUrl), JsInherited(name)))
    ensures Candidate(Some(base + "." + name)) == None
  {
    assert IsLowerAlnum(name);
    ExtensionOfWord(base, name);
    InheritedCandidate(Some(base + "." + name));
  }
}
