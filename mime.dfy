/**
 * The MIME-type test of the playlist source normaliser: the fixed pattern
 * `^[^/]+/(?:x-)?([^/]+)$`, written out as a split on the one slash.
 *
 * A string matches when it is `top + "/" + rest` with `top` and `rest`
 * non-empty and slash-free. The captured group is `rest`, less a leading
 * `x-` when at least one character follows it: the optional group is greedy
 * but gives the `x-` back when `[^/]+` would otherwise be left empty.
 */
module Mime {

  import opened Wrappers

  /** Index of the first slash of `t`. */
  function FirstSlash(t: string): (i: nat)
    requires '/' in t
    ensures i < |t| && t[i] == '/'
    ensures '/' !in t[..i]
  {
    if t[0] == '/' then 0
    else
      assert t == [t[0]] + t[1..];
      var j := FirstSlash(t[1..]);
      assert t[..j + 1] == [t[0]] + t[1..][..j];
      j + 1
  }

  /** The text the capture group `([^/]+)` takes from the part after the slash. */
  function Capture(rest: string): (sub: string)
    requires rest != [] && '/' !in rest
    ensures sub != [] && '/' !in sub
    ensures rest == sub || rest == "x-" + sub
    ensures |rest| > 2 && rest[..2] == "x-" ==> rest == "x-" + sub
  {
    if |rest| > 2 && rest[..2] == "x-" then
      assert rest == rest[..2] + rest[2..];
      rest[2..]
    else rest
  }

  /**
   * The optional group is greedy: of the readings of `rest` as a non-empty
   * capture `s`, with or without a leading `x-`, the capture is the shorter.
   */
  lemma CaptureIsGreedy(rest: string, s: string)
    requires rest != [] && '/' !in rest
    requires s != [] && (rest == s || rest == "x-" + s)
    ensures |Capture(rest)| <= |s|
  {
    if rest == "x-" + s {
      assert |rest| > 2 && rest[..2] == "x-";
    }
  }

  /**
   * The subtype the pattern captures from `t`, or None when `t` does not
   * match: no slash, an empty part on either side, or a second slash.
   */
  function MimeSubtype(t: string): (r: Option<string>)
    ensures r.Some? ==> r.value != [] && '/' !in r.value
    ensures '/' !in t ==> r.None?
  {
    if '/' !in t then None
    else
      var i := FirstSlash(t);
      var rest := t[i + 1..];
      if i == 0 || rest == [] || '/' in rest then None
      else Some(Capture(rest))
  }

  /**
   * Reference reading of "matches the pattern": at least three characters,
   * no slash at either end, and exactly one slash.
   */
  ghost predicate MimeShaped(t: string)
  {
    |t| >= 3 && t[0] != '/' && t[|t| - 1] != '/' && multiset(t)['/'] == 1
  }

  /** The pattern matches exactly the strings with one inner slash. */
  lemma MimeSubtypeMatchesShape(t: string)
    ensures MimeSubtype(t).Some? <==> MimeShaped(t)
  {
    if '/' in t {
      var i := FirstSlash(t);
      var top, rest := t[..i], t[i + 1..];
      assert t == top + [t[i]] + rest;
      assert multiset(t) == multiset(top) + multiset{'/'} + multiset(rest);
      assert '/' in top <==> multiset(top)['/'] > 0;
      assert '/' in rest <==> multiset(rest)['/'] > 0;
      assert multiset(t)['/'] == 1 + multiset(rest)['/'];
      if i != 0 && rest != [] && '/' !in rest {
        assert t[0] == top[0] && t[|t| - 1] == rest[|rest| - 1];
      }
    } else {
      assert multiset(t)['/'] == 0;
    }
  }

  /**
   * Any `top/rest` with both parts non-empty and slash-free matches, and the
   * capture is `rest` with a leading `x-` dropped when something follows it.
   */
  lemma MimeSubtypeOfSplit(top: string, rest: string)
    requires top != [] && '/' !in top
    requires rest != [] && '/' !in rest
    ensures MimeSubtype(top + "/" + rest) == Some(Capture(rest))
  {
    var t := top + "/" + rest;
    assert t[|top|] == '/';
    assert t[..|top|] == top;
    var i := FirstSlash(t);
    assert i == |top|;
    assert t[i + 1..] == rest;
  }

  /** A plain subtype is captured whole. */
  lemma MimeSubtypePlain()
    ensures MimeSubtype("video/mp4") == Some("mp4")
  {
    assert "video/mp4" == "video" + "/" + "mp4";
    MimeSubtypeOfSplit("video", "mp4");
    assert "mp4"[0] != 'x';
  }

  /** A leading `x-` is dropped when a subtype follows it. */
  lemma MimeSubtypeDropsX()
    ensures MimeSubtype("video/x-flv") == Some("flv")
  {
    assert "video/x-flv" == "video" + "/" + "x-flv";
    MimeSubtypeOfSplit("video", "x-flv");
    assert "x-flv"[..2] == "x-" && "x-flv"[2..] == "flv";
  }

  /** A bare `x-` is kept: the group gives it back to `[^/]+`. */
  lemma MimeSubtypeKeepsBareX()
    ensures MimeSubtype("video/x-") == Some("x-")
  {
    assert "video/x-" == "video" + "/" + "x-";
    MimeSubtypeOfSplit("video", "x-");
  }

  /** Strings with a slash at an end, or with two slashes, are not MIME types. */
  lemma MimeSubtypeRejects()
    ensures MimeSubtype("/mp4") == None
    ensures MimeSubtype("video/") == None
    ensures MimeSubtype("a/b/c") == None
  {
    assert MimeSubtype("/mp4") == None by {
      assert FirstSlash("/mp4") == 0;
    }
    assert MimeSubtype("video/") == None by {
      MimeSubtypeMatchesShape("video/");
    }
    assert MimeSubtype("a/b/c") == None by {
      var t := "a/b/c";
      assert t[0] != '/' && t[1] == '/';
      var i := FirstSlash(t);
      assert i == 1;
      assert t[2..][1] == '/';
    }
  }
}
