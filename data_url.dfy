/**
 * Removing the data-URL header the client may put in front of an image:
 * `imgData.replace(/^data:image\/\w+;base64,/, '')`. The expression is
 * anchored at the start, case-sensitive and without the `g` flag, so at
 * most one header, at position 0, is removed.
 */
module DataUrl {
  import opened Wrappers

  const ImagePrefix: string := "data:image/"
  const Base64Marker: string := ";base64,"

  /** `\w`: ASCII letters, digits and the underscore. */
  predicate IsWordChar(c: char)
  {
    'a' <= c <= 'z' || 'A' <= c <= 'Z' || '0' <= c <= '9' || c == '_'
  }

  predicate AllWordChars(s: string)
  {
    forall k :: 0 <= k < |s| ==> IsWordChar(s[k])
  }

  /**
   * A text the expression denotes: `data:image/`, one or more word
   * characters (the image subtype) and `;base64,`.
   */
  predicate IsHeader(h: string)
  {
    && |h| > |ImagePrefix| + |Base64Marker|
    && h[..|ImagePrefix|] == ImagePrefix
    && AllWordChars(h[|ImagePrefix|..|h| - |Base64Marker|])
    && h[|h| - |Base64Marker|..] == Base64Marker
  }

  /** Length of the leading run of word characters of `s`. */
  function WordRun(s: string): (n: nat)
    ensures n <= |s|
    ensures AllWordChars(s[..n])
    ensures n < |s| ==> !IsWordChar(s[n])
  {
    if s != [] && IsWordChar(s[0]) then
      var n := 1 + WordRun(s[1..]);
      assert s[..n] == [s[0]] + s[1..][..n - 1];
      n
    else 0
  }

  /** The run of word characters is the one that stops at the first other character. */
  lemma WordRunIs(s: string, n: nat)
    requires n <= |s| && AllWordChars(s[..n])
    requires n < |s| ==> !IsWordChar(s[n])
    ensures WordRun(s) == n
  {
    var m := WordRun(s);
    forall k | 0 <= k < n ensures IsWordChar(s[k]) { assert s[..n][k] == s[k]; }
    forall k | 0 <= k < m ensures IsWordChar(s[k]) { assert s[..m][k] == s[k]; }
  }

  /** Length of the header at the start of `s`, the way the expression scans it. */
  function HeaderLength(s: string): (r: Option<nat>)
  {
    var p := |ImagePrefix|;
    if |s| < p || s[..p] != ImagePrefix then None
    else
      var w := WordRun(s[p..]);
      var end := p + w + |Base64Marker|;
      if w > 0 && end <= |s| && s[p + w..end] == Base64Marker then Some(end) else None
  }

  /** `imgData.replace(/^data:image\/\w+;base64,/, '')`. */
  function StripDataUrlPrefix(s: string): (r: string)
    ensures |r| <= |s| && r == s[|s| - |r|..]
  {
    match HeaderLength(s)
    case Some(n) => s[n..]
    case None => s
  }

  /** What is removed, if anything, is a header. */
  lemma StripRemovesOnlyHeader(s: string)
    ensures StripDataUrlPrefix(s) == s || IsHeader(s[..|s| - |StripDataUrlPrefix(s)|])
  {
    match HeaderLength(s)
    case None =>
    case Some(n) =>
      var p := |ImagePrefix|;
      var w := WordRun(s[p..]);
      var h := s[..n];
      assert h[..p] == s[..p];
      assert h[p..|h| - |Base64Marker|] == s[p..][..w];
      assert h[|h| - |Base64Marker|..] == s[p + w..n];
  }

  /** The subtype run of a header at the start of `s` stops just before `;base64,`. */
  lemma HeaderSubtype(s: string, n: nat)
    requires n <= |s| && IsHeader(s[..n])
    ensures WordRun(s[|ImagePrefix|..]) == n - |ImagePrefix| - |Base64Marker|
  {
    var p := |ImagePrefix|;
    var h := s[..n];
    var w := n - p - |Base64Marker|;
    assert s[p..][..w] == h[p..|h| - |Base64Marker|];
    assert s[p..][w] == h[n - |Base64Marker|] == ';';
    WordRunIs(s[p..], w);
  }

  /** A header at the start is removed, all of it and nothing more. */
  lemma StripRemovesHeader(s: string, n: nat)
    requires n <= |s| && IsHeader(s[..n])
    ensures StripDataUrlPrefix(s) == s[n..]
  {
    var p := |ImagePrefix|;
    var h := s[..n];
    assert s[..p] == h[..p];
    HeaderSubtype(s, n);
    assert s[n - |Base64Marker|..n] == h[|h| - |Base64Marker|..];
  }

  /** The input comes back unchanged exactly when it does not start with a header. */
  lemma StripUnchangedIff(s: string)
    ensures StripDataUrlPrefix(s) == s <==> forall n :: 0 <= n <= |s| ==> !IsHeader(s[..n])
  {
    if StripDataUrlPrefix(s) != s {
      StripRemovesOnlyHeader(s);
      assert IsHeader(s[..|s| - |StripDataUrlPrefix(s)|]);
    }
    if n :| 0 <= n <= |s| && IsHeader(s[..n]) {
      StripRemovesHeader(s, n);
      assert |StripDataUrlPrefix(s)| < |s|;
    }
  }

  /** Only the first of two headers is removed: the expression has no `g` flag. */
  lemma StripOnce(h1: string, h2: string, x: string)
    requires IsHeader(h1) && IsHeader(h2)
    ensures StripDataUrlPrefix(h1 + h2 + x) == h2 + x
  {
    var rest := h2 + x;
    assert h1 + h2 + x == h1 + rest;
    assert (h1 + rest)[..|h1|] == h1;
    StripRemovesHeader(h1 + rest, |h1|);
    assert (h1 + rest)[|h1|..] == rest;
  }

  /** The characters of standard base64 text. */
  predicate IsBase64Char(c: char)
  {
    'a' <= c <= 'z' || 'A' <= c <= 'Z' || '0' <= c <= '9' || c == '+' || c == '/' || c == '='
  }

  /** Bare base64 data, sent without a header, passes through unchanged. */
  lemma BareBase64Unchanged(s: string)
    requires forall k :: 0 <= k < |s| ==> IsBase64Char(s[k])
    ensures StripDataUrlPrefix(s) == s
  {
    if |s| >= |ImagePrefix| {
      assert s[..|ImagePrefix|][4] == s[4];
    }
  }

  /**
   * A subtype outside `\w+` is not a header for the expression, even where
   * RFC 2397 allows it: `data:image/svg+xml;base64,` stays in place.
   */
  lemma SvgSubtypeKept(x: string)
    ensures StripDataUrlPrefix("data:image/svg+xml;base64," + x) == "data:image/svg+xml;base64," + x
  {
    var u := "svg+xml;base64," + x;
    var s := "data:image/svg+xml;base64," + x;
    SvgSpelling(x);
    var p := |ImagePrefix|;
    assert s[..p] == ImagePrefix && s[p..] == u;
    SvgRun(u);
    assert s[p + 3..p + 3 + |Base64Marker|][0] == u[3];
  }

  /** The svg header is the image prefix followed by `svg+`, and so on. */
  lemma SvgSpelling(x: string)
    ensures "data:image/svg+xml;base64," + x == ImagePrefix + ("svg+xml;base64," + x)
    ensures ("svg+xml;base64," + x)[..4] == "svg+"
  {
    assert "data:image/svg+xml;base64," == ImagePrefix + "svg+xml;base64,";
  }

  /** The `\w` run of `svg+xml…` is `svg`: it stops at the `+`. */
  lemma SvgRun(u: string)
    requires |u| >= 4 && u[..4] == "svg+"
    ensures WordRun(u) == 3 && u[3] == '+'
  {
    assert u[0] == u[..4][0] && u[1] == u[..4][1] && u[2] == u[..4][2] && u[3] == u[..4][3];
    forall k | 0 <= k < 3 ensures IsWordChar(u[..3][k]) {
      assert u[..3][k] == u[k];
    }
    WordRunIs(u, 3);
  }

  /** The expression is case-sensitive: an upper-case scheme is not a header. */
  lemma UpperCaseSchemeKept(x: string)
    ensures StripDataUrlPrefix("DATA:image/png;base64," + x) == "DATA:image/png;base64," + x
  {
    var s := "DATA:image/png;base64," + x;
    assert s[..|ImagePrefix|][0] == 'D';
  }
}
