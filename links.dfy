/**
 * Link acceptance: the text of an incoming message is stripped of surrounding
 * whitespace and accepted when it contains one of three fixed URL fragments.
 * No URL parsing takes place; this is a plain substring test.
 */
module Links {

  /** The characters Python's `str.isspace()` reports as whitespace. */
  predicate IsSpace(c: char) {
    || c == ' '
    || '\t' <= c <= '\r'
    || '\U{1C}' <= c <= '\U{1F}'
    || c == '\U{85}'
    || c == '\U{A0}'
    || c == '\U{1680}'
    || '\U{2000}' <= c <= '\U{200A}'
    || c == '\U{2028}'
    || c == '\U{2029}'
    || c == '\U{202F}'
    || c == '\U{205F}'
    || c == '\U{3000}'
  }

  /** Removes leading whitespace: the result is the suffix of `s` after its whitespace prefix. */
  function TrimStart(s: string): (r: string)
    ensures |r| <= |s| && r == s[|s| - |r|..]
    ensures forall i :: 0 <= i < |s| - |r| ==> IsSpace(s[i])
    ensures r != [] ==> !IsSpace(r[0])
    decreases |s|
  {
    if s != [] && IsSpace(s[0]) then TrimStart(s[1..]) else s
  }

  /** Removes trailing whitespace: the result is the prefix of `s` before its whitespace suffix. */
  function TrimEnd(s: string): (r: string)
    ensures |r| <= |s| && r == s[..|r|]
    ensures forall i :: |r| <= i < |s| ==> IsSpace(s[i])
    ensures r != [] ==> !IsSpace(r[|r| - 1])
    decreases |s|
  {
    if s != [] && IsSpace(s[|s| - 1]) then TrimEnd(s[..|s| - 1]) else s
  }

  /**
   * Python's `s.strip()`: the block of `s` left after cutting off the whitespace at
   * both ends. Everything removed is whitespace, and what is kept neither begins
   * nor ends with whitespace.
   */
  function Strip(s: string): (r: string)
    ensures r == [] || (!IsSpace(r[0]) && !IsSpace(r[|r| - 1]))
    ensures exists k :: StrippedAt(s, r, k)
  {
    var t := TrimStart(s);
    var r := TrimEnd(t);
    assert StrippedAt(s, r, |s| - |t|);
    r
  }

  /** `r` sits in `s` at offset `k`, and all of `s` around it is whitespace. */
  ghost predicate StrippedAt(s: string, r: string, k: int) {
    && 0 <= k <= |s| - |r|
    && s[k..k + |r|] == r
    && (forall i :: 0 <= i < k ==> IsSpace(s[i]))
    && (forall i :: k + |r| <= i < |s| ==> IsSpace(s[i]))
  }

  /** Stripping twice is stripping once. */
  lemma StripIdempotent(s: string)
    ensures Strip(Strip(s)) == Strip(s)
  {
    var r := Strip(s);
    var r2 := Strip(r);
    var k :| StrippedAt(r, r2, k);
    if r != [] {
      assert !IsSpace(r[0]) && !IsSpace(r[|r| - 1]);
      assert k == 0 && |r2| == |r|;
    }
  }

  /** Python's `p in s` for strings: `p` occurs in `s` as one contiguous block. */
  predicate Contains(s: string, p: string)
    decreases |s|
  {
    p <= s || (s != [] && Contains(s[1..], p))
  }

  /** `p` occurs in `s` starting at index `i`. */
  ghost predicate OccursAt(s: string, p: string, i: int) {
    0 <= i <= |s| - |p| && s[i..i + |p|] == p
  }

  /** The recursive substring test agrees with the index-based definition, both ways. */
  lemma {:induction false} ContainsIff(s: string, p: string)
    ensures Contains(s, p) <==> exists i :: OccursAt(s, p, i)
    decreases |s|
  {
    if p <= s {
      assert OccursAt(s, p, 0);
    } else if s != [] {
      ContainsIff(s[1..], p);
      if Contains(s[1..], p) {
        var i :| OccursAt(s[1..], p, i);
        assert s[i + 1..i + 1 + |p|] == s[1..][i..i + |p|];
        assert OccursAt(s, p, i + 1);
      }
      if exists i :: OccursAt(s, p, i) {
        var i :| OccursAt(s, p, i);
        assert i != 0;
        assert s[1..][i - 1..i - 1 + |p|] == s[i..i + |p|];
        assert OccursAt(s[1..], p, i - 1);
      }
    }
  }

  /** Every character of a contained string is a character of the containing one. */
  lemma {:induction false} ContainsChars(s: string, p: string, j: int)
    requires Contains(s, p) && 0 <= j < |p|
    ensures p[j] in s
    decreases |s|
  {
    if p <= s {
      assert s[j] == p[j];
    } else {
      ContainsChars(s[1..], p, j);
    }
  }

  /** A string contains only strings no longer than itself. */
  lemma {:induction false} ContainsLength(s: string, p: string)
    requires Contains(s, p)
    ensures |p| <= |s|
    decreases |s|
  {
    if !(p <= s) {
      ContainsLength(s[1..], p);
    }
  }

  /** The URL fragments of a watch page, a short share link and a Shorts page, in the source's order. */
  const WatchFragment: string := "youtube.com/watch?v="
  const ShareFragment: string := "youtu.be/"
  const ShortsFragment: string := "youtube.com/shorts/"
  const Fragments: seq<string> := [WatchFragment, ShareFragment, ShortsFragment]

  /** Python's `any(x in s for x in ps)`. */
  function AnyContained(s: string, ps: seq<string>): (b: bool)
    ensures b <==> exists k :: 0 <= k < |ps| && Contains(s, ps[k])
  {
    if ps == [] then false else Contains(s, ps[0]) || AnyContained(s, ps[1..])
  }

  /** The acceptance predicate applied to the already stripped message text. */
  function IsYouTubeLink(link: string): (b: bool)
    ensures b <==> Contains(link, WatchFragment) || Contains(link, ShareFragment) || Contains(link, ShortsFragment)
  {
    assert Fragments[0] == WatchFragment && Fragments[1] == ShareFragment && Fragments[2] == ShortsFragment;
    AnyContained(link, Fragments)
  }

  /** A link is accepted iff one of the three fragments occurs in it at some index. */
  lemma AcceptsIff(link: string)
    ensures IsYouTubeLink(link) <==>
      || (exists i :: OccursAt(link, WatchFragment, i))
      || (exists i :: OccursAt(link, ShareFragment, i))
      || (exists i :: OccursAt(link, ShortsFragment, i))
  {
    ContainsIff(link, WatchFragment);
    ContainsIff(link, ShareFragment);
    ContainsIff(link, ShortsFragment);
    assert Fragments[0] == WatchFragment && Fragments[1] == ShareFragment && Fragments[2] == ShortsFragment;
  }

  /** Every fragment holds a '/', so text without one is rejected. */
  lemma RejectsWithoutSlash(link: string)
    requires '/' !in link
    ensures !IsYouTubeLink(link)
  {
    if IsYouTubeLink(link) {
      var k :| 0 <= k < |Fragments| && Contains(link, Fragments[k]);
      var j := if k == 1 then 8 else 11;
      assert Fragments[k][j] == '/';
      ContainsChars(link, Fragments[k], j);
    }
  }

  /** The shortest fragment has nine characters, so an accepted link is never empty. */
  lemma AcceptedIsLong(link: string)
    requires IsYouTubeLink(link)
    ensures |link| >= |ShareFragment|
  {
    var k :| 0 <= k < |Fragments| && Contains(link, Fragments[k]);
    ContainsLength(link, Fragments[k]);
  }

  /** A short share link is accepted. */
  lemma AcceptsShareLink()
    ensures IsYouTubeLink("https://youtu.be/dQw4w9WgXcQ")
  {
    var share := "https://youtu.be/dQw4w9WgXcQ";
    assert share[8..17] == ShareFragment;
    assert OccursAt(share, ShareFragment, 8);
    AcceptsIff(share);
  }

  /** A Shorts page link is accepted. */
  lemma AcceptsShortsLink()
    ensures IsYouTubeLink("https://www.youtube.com/shorts/abc")
  {
    var shorts := "https://www.youtube.com/shorts/abc";
    assert shorts == "https://www." + ShortsFragment + "abc";
    assert shorts[12..31] == ShortsFragment;
    assert OccursAt(shorts, ShortsFragment, 12);
    AcceptsIff(shorts);
  }

  /** A message of plain words is rejected. */
  lemma RejectsPlainText()
    ensures !IsYouTubeLink("hola, me bajas este video?")
  {
    RejectsWithoutSlash("hola, me bajas este video?");
  }
}
