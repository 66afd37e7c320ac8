/** The JavaScript string operations the route applies to paths and links:
    `path.replace(/.*\./, '')`, `toLowerCase()` and the `/downloads.fanbox.cc/` test. */
module JsText {

  /** The characters ECMAScript treats as line terminators; a regex `.` matches none of them. */
  predicate IsLineTerminator(c: char) {
    c == '\n' || c == '\r' || c == '\U{2028}' || c == '\U{2029}'
  }

  predicate NoLineTerminator(s: string) {
    forall i :: 0 <= i < |s| ==> !IsLineTerminator(s[i])
  }

  predicate IsUpper(c: char) { 'A' <= c <= 'Z' }

  /** True when `s` holds no upper-case letter. */
  predicate IsLowerCase(s: string) {
    forall i :: 0 <= i < |s| ==> !IsUpper(s[i])
  }

  function LowerChar(c: char): char {
    if IsUpper(c) then (c as int + 32) as char else c
  }

  /** `s.toLowerCase()`, on the ASCII letters. */
  function ToLower(s: string): (r: string)
    ensures |r| == |s|
  {
    if s == [] then [] else [LowerChar(s[0])] + ToLower(s[1..])
  }

  /** Lower-casing works character by character. */
  lemma {:induction false} ToLowerAt(s: string)
    ensures forall i :: 0 <= i < |s| ==> ToLower(s)[i] == LowerChar(s[i])
  {
    if s != [] {
      ToLowerAt(s[1..]);
    }
  }

  /** Lower-casing leaves no upper-case letter and changes nothing but letters. */
  lemma ToLowerIsLower(s: string)
    ensures IsLowerCase(ToLower(s))
    ensures forall i :: 0 <= i < |s| && !IsUpper(s[i]) ==> ToLower(s)[i] == s[i]
  {
    ToLowerAt(s);
  }

  /** Lower-casing maps no character to '.' or to a line terminator unless it was one. */
  lemma ToLowerKeepsNonLetters(r: string)
    ensures '.' !in r ==> '.' !in ToLower(r)
    ensures NoLineTerminator(r) ==> NoLineTerminator(ToLower(r))
  {
    var t := ToLower(r);
    ToLowerAt(r);
    forall i | 0 <= i < |r|
      ensures (t[i] == '.') == (r[i] == '.')
      ensures IsLineTerminator(t[i]) == IsLineTerminator(r[i])
    {
    }
  }

  /** A string already in lower case is left alone. */
  lemma ToLowerFixesLower(s: string)
    requires IsLowerCase(s)
    ensures ToLower(s) == s
  {
    ToLowerAt(s);
  }

  /** Index of the first line terminator of `s`, or `|s|` when there is none. */
  function LineEnd(s: string): (e: nat)
    ensures e <= |s|
  {
    if s == [] || IsLineTerminator(s[0]) then 0 else 1 + LineEnd(s[1..])
  }

  /** `LineEnd` stops at the first line terminator. */
  lemma {:induction false} LineEndIsFirstTerminator(s: string)
    ensures forall i :: 0 <= i < LineEnd(s) ==> !IsLineTerminator(s[i])
    ensures LineEnd(s) < |s| ==> IsLineTerminator(s[LineEnd(s)])
  {
    if s != [] && !IsLineTerminator(s[0]) {
      LineEndIsFirstTerminator(s[1..]);
    }
  }

  /** Index of the last '.' of `s`. */
  function LastDot(s: string): (k: nat)
    requires '.' in s
    ensures k < |s| && s[k] == '.'
  {
    var n := |s| - 1;
    if s[n] == '.' then n
    else
      assert s == s[..n] + [s[n]];
      LastDot(s[..n])
  }

  /** No '.' follows the one `LastDot` finds. */
  lemma {:induction false} LastDotIsLast(s: string)
    requires '.' in s
    ensures forall j :: LastDot(s) < j < |s| ==> s[j] != '.'
  {
    var n := |s| - 1;
    if s[n] != '.' {
      assert s == s[..n] + [s[n]];
      LastDotIsLast(s[..n]);
    }
  }

  /** `s.replace(/.*\./, '')`: the leftmost match of `.*\.` starts at the first line that
      holds a '.', and the greedy `.*` stretches it to the last '.' of that line (a `.`
      never crosses a line terminator); that span is deleted. With no match `s` is kept. */
  function StripThroughDot(s: string): (r: string)
    decreases |s|
  {
    var e := LineEnd(s);
    if '.' in s[..e] then s[LastDot(s[..e]) + 1..]
    else if e == |s| then s
    else s[..e + 1] + StripThroughDot(s[e + 1..])
  }

  /** The extension the route computes: `path.replace(/.*\./, '').toLowerCase()`. */
  function Extension(path: string): string {
    ToLower(StripThroughDot(path))
  }

  /** A string without line terminators is one line. */
  lemma {:induction false} LineEndOfOneLine(s: string)
    requires NoLineTerminator(s)
    ensures LineEnd(s) == |s|
  {
    if s != [] {
      LineEndOfOneLine(s[1..]);
    }
  }

  /** On a one-line string holding a '.', the strip keeps the text after the last '.'. */
  lemma StripOneLineAtDot(s: string)
    requires NoLineTerminator(s) && '.' in s
    ensures StripThroughDot(s) == s[LastDot(s) + 1..]
  {
    LineEndOfOneLine(s);
    assert s[..|s|] == s;
  }

  /** On a one-line string the strip keeps exactly the text after the last '.', and the
      whole string when there is no '.'. */
  lemma StripOneLine(s: string)
    requires NoLineTerminator(s)
    ensures '.' !in StripThroughDot(s)
    ensures '.' !in s ==> StripThroughDot(s) == s
    ensures '.' in s ==> var r := StripThroughDot(s);
      |r| < |s| && s[|s| - |r| - 1] == '.' && r == s[|s| - |r|..]
  {
    if '.' in s {
      var k := LastDot(s);
      StripOneLineAtDot(s);
      LastDotIsLast(s);
      var r := s[k + 1..];
      assert |s| - |r| - 1 == k;
      assert forall j :: 0 <= j < |r| ==> r[j] == s[k + 1 + j];
    } else {
      LineEndOfOneLine(s);
      assert s[..|s|] == s;
    }
  }

  /** Without any '.' there is no match, whatever the line structure: the strip keeps `s`. */
  lemma {:induction false} NoDotUnchanged(s: string)
    requires '.' !in s
    ensures StripThroughDot(s) == s
    decreases |s|
  {
    var e := LineEnd(s);
    assert forall j :: 0 <= j < e ==> s[..e][j] == s[j];
    if e < |s| {
      NoDotUnchanged(s[e + 1..]);
      assert s[..e + 1] + s[e + 1..] == s;
    }
  }

  /** A path without any '.' has the whole path, lower-cased, as its extension. */
  lemma ExtensionOfDotless(path: string)
    ensures '.' !in path ==> Extension(path) == ToLower(path)
  {
    if '.' !in path {
      NoDotUnchanged(path);
    }
  }

  /** The extension of a one-line path is the lower-cased text after its last '.', or the
      whole path lower-cased when it has no '.'; it holds neither '.' nor an upper-case letter. */
  lemma ExtensionOfOneLine(path: string)
    requires NoLineTerminator(path)
    ensures '.' !in path ==> Extension(path) == ToLower(path)
    ensures '.' in path ==>
      exists k :: 0 <= k < |path| && path[k] == '.' && '.' !in path[k + 1..] && Extension(path) == ToLower(path[k + 1..])
    ensures '.' !in Extension(path) && IsLowerCase(Extension(path))
    ensures NoLineTerminator(Extension(path))
  {
    StripOneLine(path);
    var r := StripThroughDot(path);
    ToLowerIsLower(r);
    if '.' in path {
      var k := |path| - |r| - 1;
      assert path[k + 1..] == r;
    }
    forall i | 0 <= i < |r|
      ensures !IsLineTerminator(r[i])
    {
      if '.' in path {
        assert r[i] == path[|path| - |r| + i];
      }
    }
    ToLowerKeepsNonLetters(r);
  }

  /** Taking the extension twice gives the same result as taking it once, for a path
      without line terminators. */
  lemma ExtensionIdempotent(path: string)
    requires NoLineTerminator(path)
    ensures Extension(Extension(path)) == Extension(path)
  {
    var x := Extension(path);
    ExtensionOfOneLine(path);
    StripOneLine(x);
    ToLowerFixesLower(x);
  }

  /** The strip of a two-line path "a.b\nc.d" (characters given one by one): the first line
      holds a '.', so only "a." goes. */
  lemma StripFirstLineOnly(s: string)
    requires |s| == 7 && s[0] == 'a' && s[1] == '.' && s[2] == 'b' && s[3] == '\n'
    requires s[4] == 'c' && s[5] == '.' && s[6] == 'd'
    ensures StripThroughDot(s) == s[2..]
  {
    LineEndIsFirstTerminator(s);
    assert LineEnd(s) == 3;
    LastDotIsLast(s[..3]);
    assert LastDot(s[..3]) == 1;
  }

  /** The strip of "b\nc.d": the first line has no '.', so the match lies in the second line. */
  lemma StripSecondLine(t: string)
    requires |t| == 5 && t[0] == 'b' && t[1] == '\n' && t[2] == 'c' && t[3] == '.' && t[4] == 'd'
    ensures StripThroughDot(t) == [t[0], t[1], t[4]]
  {
    LineEndIsFirstTerminator(t);
    assert LineEnd(t) == 1;
    assert t[..1] == [t[0]];
    var u := t[2..];
    LineEndIsFirstTerminator(u);
    assert LineEnd(u) == 3;
    LastDotIsLast(u);
    assert u[..3] == u;
    assert LastDot(u) == 1;
    assert StripThroughDot(u) == [t[4]];
  }

  /** A line terminator in the path breaks idempotence: for "a.b\nc.d" one application only
      strips through the last '.' of the first line that has one, giving "b\nc.d", and a
      second application gives "b\nd". */
  lemma ExtensionNotIdempotentAcrossLines(s: string)
    requires |s| == 7 && s[0] == 'a' && s[1] == '.' && s[2] == 'b' && s[3] == '\n'
    requires s[4] == 'c' && s[5] == '.' && s[6] == 'd'
    ensures Extension(s) == s[2..]
    ensures Extension(Extension(s)) == [s[2], s[3], s[6]]
    ensures Extension(Extension(s)) != Extension(s)
  {
    StripFirstLineOnly(s);
    var t := s[2..];
    ToLowerFixesLower(t);
    StripSecondLine(t);
    var u := [t[0], t[1], t[4]];
    ToLowerFixesLower(u);
  }

  /** A one-line path "<base>.<ext>" whose `ext` has no '.' has extension `ext` lower-cased. */
  lemma ExtensionOfSuffix(base: string, ext: string)
    requires NoLineTerminator(base + "." + ext) && '.' !in ext
    ensures Extension(base + "." + ext) == ToLower(ext)
  {
    var s := base + "." + ext;
    LineEndIsFirstTerminator(s);
    assert LineEnd(s) == |s|;
    assert s[..|s|] == s;
    assert s[|base|] == '.';
    assert forall j :: |base| < j < |s| ==> s[j] == ext[j - |base| - 1];
    LastDotIsLast(s);
    assert LastDot(s) == |base|;
    assert s[|base| + 1..] == ext;
  }

  /** Lower-case letters and digits only. */
  predicate IsLowerAlnum(w: string) {
    forall i :: 0 <= i < |w| ==> 'a' <= w[i] <= 'z' || '0' <= w[i] <= '9'
  }

  /** A one-line path "<base>.<w>" with `w` of lower-case letters and digits has extension `w`. */
  lemma ExtensionOfWord(base: string, w: string)
    requires NoLineTerminator(base) && IsLowerAlnum(w)
    ensures Extension(base + "." + w) == w
  {
    var s := base + "." + w;
    forall i | 0 <= i < |s|
      ensures !IsLineTerminator(s[i])
    {
      if i > |base| {
        assert s[i] == w[i - |base| - 1];
      }
    }
    assert '.' !in w by {
      forall i | 0 <= i < |w|
        ensures w[i] != '.'
      {
      }
    }
    ExtensionOfSuffix(base, w);
    ToLowerFixesLower(w);
  }

  /** A one-line path ending in ".JPG" has extension "jpg". */
  lemma ExtensionOfJpgSuffix(s: string, k: nat)
    requires NoLineTerminator(s)
    requires k + 4 == |s| && s[k] == '.' && s[k + 1..] == "JPG"
    ensures Extension(s) == "jpg"
  {
    StripOneLine(s);
    var r := StripThroughDot(s);
    assert r == s[k + 1..];
    assert ToLower(r) == "jpg" by {
      assert r[1..][1..] == "G";
      assert ToLower(r[1..][1..]) == "g";
    }
  }

  /** Extension derivation ignores case: "photo.JPG" has extension "jpg". */
  lemma ExtensionOfUpperCaseJpg()
    ensures Extension("photo.JPG") == "jpg"
  {
    ExtensionOfJpgSuffix("photo.JPG", 5);
  }

  /** The pattern of `/downloads.fanbox.cc/`; each unescaped '.' matches any character
      except a line terminator. */
  const FanboxPattern: string := "downloads.fanbox.cc"

  /** Character `c` is accepted by pattern character `p`. */
  predicate CharFits(c: char, p: char) {
    if p == '.' then !IsLineTerminator(c) else c == p
  }

  /** `s` starts with text that `pattern` matches. */
  predicate StartsWithPattern(s: string, pattern: string) {
    |pattern| <= |s| &&
    (pattern == [] || (CharFits(s[0], pattern[0]) && StartsWithPattern(s[1..], pattern[1..])))
  }

  /** `/downloads.fanbox.cc/.test(s)`: the pattern matches at some position of `s`. */
  predicate FanboxTest(s: string) {
    StartsWithPattern(s, FanboxPattern) || (s != [] && FanboxTest(s[1..]))
  }

  /** A pattern matches at the start exactly when each of its characters fits the one below. */
  lemma {:induction false} StartsWithPatternIff(s: string, pattern: string)
    ensures StartsWithPattern(s, pattern) <==>
      |pattern| <= |s| && forall j :: 0 <= j < |pattern| ==> CharFits(s[j], pattern[j])
  {
    if pattern != [] && |pattern| <= |s| {
      StartsWithPatternIff(s[1..], pattern[1..]);
      assert forall j :: 1 <= j < |pattern| ==> s[1..][j - 1] == s[j] && pattern[1..][j - 1] == pattern[j];
    }
  }

  /** The regex test succeeds exactly when the pattern matches at some position. */
  lemma {:induction false} FanboxTestIff(s: string)
    ensures FanboxTest(s) <==> exists i :: 0 <= i <= |s| && StartsWithPattern(s[i..], FanboxPattern)
  {
    if s == [] {
      assert s[0..] == s;
    } else {
      FanboxTestIff(s[1..]);
      assert s[0..] == s;
      if FanboxTest(s[1..]) {
        var i :| 0 <= i <= |s[1..]| && StartsWithPattern(s[1..][i..], FanboxPattern);
        assert s[1..][i..] == s[i + 1..];
      }
      if exists i :: 0 <= i <= |s| && StartsWithPattern(s[i..], FanboxPattern) {
        var i :| 0 <= i <= |s| && StartsWithPattern(s[i..], FanboxPattern);
        if i > 0 {
          assert s[1..][i - 1..] == s[i..];
        }
      }
    }
  }

  /** The pattern is found wherever "downloads", any character, "fanbox", any character and
      "cc" follow each other: the unescaped dots also accept other characters than '.'. */
  lemma FanboxFindsPatternAnywhere(before: string, c1: char, c2: char, after: string)
    requires !IsLineTerminator(c1) && !IsLineTerminator(c2)
    ensures FanboxTest(before + "downloads" + [c1] + "fanbox" + [c2] + "cc" + after)
  {
    var s := before + "downloads" + [c1] + "fanbox" + [c2] + "cc" + after;
    var w := s[|before|..];
    assert forall j :: 0 <= j < |FanboxPattern| ==> CharFits(w[j], FanboxPattern[j]);
    StartsWithPatternIff(w, FanboxPattern);
    FanboxTestIff(s);
  }

  /** A string shorter than the pattern never matches; in particular "undefined", the string a
      missing `href` becomes. */
  lemma {:induction false} ShortTextNeverMatches(s: string)
    requires |s| < |FanboxPattern|
    ensures !FanboxTest(s)
    ensures !FanboxTest("undefined")
  {
    if s != [] {
      ShortTextNeverMatches(s[1..]);
    }
  }
}
