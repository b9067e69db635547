/**
 * The rewrite that wraps bare links in a tweet's text in anchor tags: PHP's
 * `preg_replace` with the case-insensitive pattern
 *   one character other than '"', '=', '\'' or '>'        (group 1)
 *   then "http://", "https://" or "ftp://"
 *   then a run without whitespace or '<' of at least two characters
 *   whose last character is not '.' or ')'                 (group 2 is scheme and run)
 * replacing each match by group 1 followed by
 * `<a href="URL" target="_blank">URL</a>`, scanning left to right and
 * resuming after each match.
 *
 * The scanner below mirrors how the regex engine finds each match; IsMatch
 * states declaratively what a match is, and MatchAt is proved to return the
 * one the engine picks (the longest, as the greedy run backs off only as far
 * as it must).
 */
module Links {
  import opened Options

  /** `\s` of the regex engine's default tables: space, tab, LF, VT, FF, CR. */
  predicate IsSpace(c: char) { c == ' ' || '\t' <= c <= '\r' }

  /** `[^\s<]` */
  predicate InRun(c: char) { !IsSpace(c) && c != '<' }

  /** `[^\s<\.)]` */
  predicate MayEnd(c: char) { InRun(c) && c != '.' && c != ')' }

  /** `[^"=\'>]` */
  predicate MayPrecede(c: char) { c != '"' && c != '=' && c != '\'' && c != '>' }

  /** ASCII case folding, as the `i` flag applies to the scheme letters. */
  function Lower(c: char): char
  {
    if 'A' <= c <= 'Z' then (c as int + 32) as char else c
  }

  /** s holds w at index i, letters compared without regard to case. */
  predicate HasAt(s: string, i: nat, w: string)
  {
    i + |w| <= |s| && forall k :: 0 <= k < |w| ==> Lower(s[i + k]) == w[k]
  }

  /** u is a link as the pattern describes it, once the scheme w is chosen. */
  predicate UrlWith(u: string, w: string)
  {
    && HasAt(u, 0, w)
    && |u| >= |w| + 2
    && (forall k :: |w| <= k < |u| ==> InRun(u[k]))
    && MayEnd(u[|u| - 1])
  }

  /** `(http|https|ftp)://[^\s<]+[^\s<\.)]`, case-insensitive. */
  predicate IsUrl(u: string)
  {
    UrlWith(u, "http://") || UrlWith(u, "https://") || UrlWith(u, "ftp://")
  }

  /** The whole pattern matches s[p..e]: the character at p may precede a link and s[p+1..e] is one. */
  predicate IsMatch(s: string, p: nat, e: nat)
  {
    p < e <= |s| && MayPrecede(s[p]) && IsUrl(s[p + 1..e])
  }

  /** Where the link body starts, when a scheme and "://" stand at i. */
  function SchemeEnd(s: string, i: nat): Option<nat>
  {
    if HasAt(s, i, "http://") then Some(i + 7)
    else if HasAt(s, i, "https://") then Some(i + 8)
    else if HasAt(s, i, "ftp://") then Some(i + 6)
    else None
  }

  /** The end of the longest run of `[^\s<]` starting at i. */
  function RunEnd(s: string, i: nat): (j: nat)
    requires i <= |s|
    ensures i <= j <= |s|
    ensures forall k :: i <= k < j ==> InRun(s[k])
    ensures j < |s| ==> !InRun(s[j])
    decreases |s| - i
  {
    if i < |s| && InRun(s[i]) then RunEnd(s, i + 1) else i
  }

  /** The last index in [lo, hi) whose character may end a link. */
  function LastEnd(s: string, lo: nat, hi: nat): (r: Option<nat>)
    requires lo <= hi <= |s|
    ensures r.Some? ==> lo <= r.value < hi && MayEnd(s[r.value])
    ensures r.Some? ==> forall j :: r.value < j < hi ==> !MayEnd(s[j])
    ensures r.None? ==> forall j :: lo <= j < hi ==> !MayEnd(s[j])
    decreases hi - lo
  {
    if hi == lo then None
    else if MayEnd(s[hi - 1]) then Some(hi - 1)
    else LastEnd(s, lo, hi - 1)
  }

  /**
   * The end of the match the regex engine finds when it tries the pattern
   * at p, if any: the scheme is fixed by the text, the run is taken as far
   * as it goes, then given back until its last character may end a link.
   */
  function MatchAt(s: string, p: nat): (r: Option<nat>)
    ensures r.Some? ==> p + 1 < r.value <= |s|
  {
    if p < |s| && MayPrecede(s[p]) then
      match SchemeEnd(s, p + 1)
      case None => None
      case Some(a) =>
        var m := RunEnd(s, a);
        if m < a + 2 then None
        else
          match LastEnd(s, a + 1, m)
          case None => None
          case Some(k) => Some(k + 1)
    else None
  }

  lemma HasAtSlice(s: string, b: nat, e: nat, w: string)
    requires b <= e <= |s| && b + |w| <= e
    ensures HasAt(s[b..e], 0, w) <==> HasAt(s, b, w)
  {
    if HasAt(s, b, w) {
      forall k | 0 <= k < |w| ensures Lower(s[b..e][k]) == w[k] {
        assert s[b..e][k] == s[b + k];
      }
    }
    if HasAt(s[b..e], 0, w) {
      forall k | 0 <= k < |w| ensures Lower(s[b + k]) == w[k] {
        assert s[b..e][0 + k] == s[b + k];
      }
    }
  }

  /** At most one of the three schemes can stand at a position. */
  lemma SchemesExclusive(s: string, i: nat)
    ensures !(HasAt(s, i, "http://") && HasAt(s, i, "https://"))
    ensures !(HasAt(s, i, "ftp://") && (HasAt(s, i, "http://") || HasAt(s, i, "https://")))
  {
    assert "http://"[4] == ':' && "https://"[4] == 's';
    assert "ftp://"[0] == 'f' && "http://"[0] == 'h' && "https://"[0] == 'h';
    if HasAt(s, i, "http://") {
      assert Lower(s[i + 4]) == ':';
    }
    if HasAt(s, i, "https://") {
      assert Lower(s[i + 4]) == 's';
    }
    if HasAt(s, i, "ftp://") {
      assert Lower(s[i + 0]) == 'f';
    }
  }

  /** A link in s[b..e] with scheme w, restated on s itself. */
  lemma UrlWithSlice(s: string, b: nat, e: nat, w: string)
    requires b <= e <= |s|
    ensures UrlWith(s[b..e], w) <==>
      && b + |w| + 2 <= e
      && HasAt(s, b, w)
      && (forall k :: b + |w| <= k < e ==> InRun(s[k]))
      && MayEnd(s[e - 1])
  {
    var u := s[b..e];
    if b + |w| <= e {
      HasAtSlice(s, b, e, w);
    }
    if UrlWith(u, w) {
      forall k | b + |w| <= k < e ensures InRun(s[k]) {
        assert u[k - b] == s[k];
      }
      assert u[|u| - 1] == s[e - 1];
    }
    if b + |w| + 2 <= e && (forall k :: b + |w| <= k < e ==> InRun(s[k])) {
      forall k | |w| <= k < |u| ensures InRun(u[k]) {
        assert u[k] == s[b + k];
      }
      assert u[|u| - 1] == s[e - 1];
    }
  }

  /** A match, described in terms of where SchemeEnd puts the start of its body. */
  predicate BodyMatch(s: string, p: nat, e: nat)
  {
    && p < |s| && MayPrecede(s[p]) && e <= |s|
    && SchemeEnd(s, p + 1).Some?
    && SchemeEnd(s, p + 1).value + 2 <= e
    && (forall k :: SchemeEnd(s, p + 1).value <= k < e ==> InRun(s[k]))
    && MayEnd(s[e - 1])
  }

  lemma MatchIsBodyMatch(s: string, p: nat, e: nat)
    ensures IsMatch(s, p, e) <==> BodyMatch(s, p, e)
  {
    var b := p + 1;
    if p < |s| && b <= e <= |s| {
      SchemesExclusive(s, b);
      UrlWithSlice(s, b, e, "http://");
      UrlWithSlice(s, b, e, "https://");
      UrlWithSlice(s, b, e, "ftp://");
    }
  }

  /** MatchAt finds a match exactly when one exists, and then the longest one. */
  lemma MatchAtCorrect(s: string, p: nat)
    ensures MatchAt(s, p).Some? ==> IsMatch(s, p, MatchAt(s, p).value)
    ensures MatchAt(s, p).Some? ==> forall e: nat :: IsMatch(s, p, e) ==> e <= MatchAt(s, p).value
    ensures MatchAt(s, p).None? ==> forall e: nat :: !IsMatch(s, p, e)
  {
    forall e: nat ensures IsMatch(s, p, e) <==> BodyMatch(s, p, e) {
      MatchIsBodyMatch(s, p, e);
    }
  }

  /** One step of the rewrite: a character copied as it is, or a link to wrap. */
  datatype Piece = Char(c: char) | Link(url: string)

  /**
   * The rewrite of s[i..] as pieces: at each position the pattern is tried;
   * on a match, its first character is copied and the link wrapped, and
   * scanning resumes after the match.
   */
  function Scan(s: string, i: nat): seq<Piece>
    requires i <= |s|
    decreases |s| - i
  {
    if i == |s| then []
    else
      match MatchAt(s, i)
      case Some(e) => [Char(s[i]), Link(s[i + 1..e])] + Scan(s, e)
      case None => [Char(s[i])] + Scan(s, i + 1)
  }

  /** Every link piece is a link of the pattern placed right after a character allowed to precede one. */
  predicate WrapsOnlyUrls(ps: seq<Piece>)
  {
    forall j :: 0 <= j < |ps| && ps[j].Link? ==>
      0 < j && ps[j - 1].Char? && MayPrecede(ps[j - 1].c) && IsUrl(ps[j].url)
  }

  /** The replacement text for a link: the URL verbatim as both target and anchor text. */
  function Anchor(url: string): string
  {
    "<a href=\"" + url + "\" target=\"_blank\">" + url + "</a>"
  }

  function PieceHtml(p: Piece): string
  {
    match p
    case Char(c) => [c]
    case Link(u) => Anchor(u)
  }

  /** What a reader sees of a piece: a link shows its URL. */
  function PieceText(p: Piece): string
  {
    match p
    case Char(c) => [c]
    case Link(u) => u
  }

  function Render(ps: seq<Piece>): string
    decreases |ps|
  {
    if ps == [] then [] else PieceHtml(ps[0]) + Render(ps[1..])
  }

  /** The text a reader sees. */
  function Visible(ps: seq<Piece>): string
    decreases |ps|
  {
    if ps == [] then [] else PieceText(ps[0]) + Visible(ps[1..])
  }

  /** The tweet text after the rewrite. */
  function Linkify(text: string): string
  {
    Render(Scan(text, 0))
  }

  lemma {:induction false} VisibleAppend(a: seq<Piece>, b: seq<Piece>)
    ensures Visible(a + b) == Visible(a) + Visible(b)
    decreases |a|
  {
    if a == [] {
      assert a + b == b;
    } else {
      assert (a + b)[0] == a[0] && (a + b)[1..] == a[1..] + b;
      VisibleAppend(a[1..], b);
      calc {
        Visible(a + b);
        PieceText(a[0]) + Visible(a[1..] + b);
        PieceText(a[0]) + (Visible(a[1..]) + Visible(b));
        (PieceText(a[0]) + Visible(a[1..])) + Visible(b);
      }
    }
  }

  lemma {:induction false} RenderAppend(a: seq<Piece>, b: seq<Piece>)
    ensures Render(a + b) == Render(a) + Render(b)
    decreases |a|
  {
    if a == [] {
      assert a + b == b;
    } else {
      assert (a + b)[0] == a[0] && (a + b)[1..] == a[1..] + b;
      RenderAppend(a[1..], b);
      calc {
        Render(a + b);
        PieceHtml(a[0]) + Render(a[1..] + b);
        PieceHtml(a[0]) + (Render(a[1..]) + Render(b));
        (PieceHtml(a[0]) + Render(a[1..])) + Render(b);
      }
    }
  }

  /** One step of the scan: pieces showing s[i..e] followed by pieces showing s[e..] show s[i..]. */
  lemma VisibleStep(s: string, i: nat, e: nat, head: seq<Piece>, rest: seq<Piece>)
    requires i <= e <= |s|
    requires Visible(head) == s[i..e] && Visible(rest) == s[e..]
    ensures Visible(head + rest) == s[i..]
  {
    calc {
      Visible(head + rest);
      { VisibleAppend(head, rest); }
      s[i..e] + s[e..];
      { assert s[i..] == s[i..e] + s[e..]; }
      s[i..];
    }
  }

  lemma VisiblePair(c: char, url: string)
    ensures Visible([Char(c), Link(url)]) == [c] + url
  {
    var ps := [Char(c), Link(url)];
    assert ps[1..] == [Link(url)] && ps[1..][1..] == [];
    calc {
      Visible(ps);
      PieceText(Char(c)) + Visible([Link(url)]);
      [c] + (PieceText(Link(url)) + Visible([]));
      [c] + url;
    }
  }

  /** One step of the scan where a match starts. */
  lemma ScanStepMatch(s: string, i: nat, e: nat)
    requires i < |s| && MatchAt(s, i) == Some(e)
    ensures Scan(s, i) == [Char(s[i]), Link(s[i + 1..e])] + Scan(s, e)
  {
  }

  /** One step of the scan where no match starts. */
  lemma ScanStepCopy(s: string, i: nat)
    requires i < |s| && MatchAt(s, i).None?
    ensures Scan(s, i) == [Char(s[i])] + Scan(s, i + 1)
  {
  }

  lemma SliceCons(s: string, i: nat, e: nat)
    requires i < e <= |s|
    ensures s[i..e] == [s[i]] + s[i + 1..e]
  {
  }

  /** The scan step that wraps a link keeps the text it covers. */
  lemma ScanKeepsMatch(s: string, i: nat, e: nat)
    requires i < |s| && MatchAt(s, i) == Some(e)
    requires Visible(Scan(s, e)) == s[e..]
    ensures Visible(Scan(s, i)) == s[i..]
  {
    var head := [Char(s[i]), Link(s[i + 1..e])];
    ScanStepMatch(s, i, e);
    VisiblePair(s[i], s[i + 1..e]);
    SliceCons(s, i, e);
    VisibleStep(s, i, e, head, Scan(s, e));
  }

  /** The scan step that copies one character keeps it. */
  lemma ScanKeepsChar(s: string, i: nat)
    requires i < |s| && MatchAt(s, i).None?
    requires Visible(Scan(s, i + 1)) == s[i + 1..]
    ensures Visible(Scan(s, i)) == s[i..]
  {
    ScanStepCopy(s, i);
    assert Visible([Char(s[i])]) == s[i..i + 1];
    VisibleStep(s, i, i + 1, [Char(s[i])], Scan(s, i + 1));
  }

  /** Removing the anchors gives back the scanned text: nothing is lost, moved or duplicated. */
  lemma {:induction false} ScanKeepsText(s: string, i: nat)
    requires i <= |s|
    ensures Visible(Scan(s, i)) == s[i..]
    decreases |s| - i
  {
    if i < |s| {
      var m := MatchAt(s, i);
      if m.Some? {
        ScanKeepsText(s, m.value);
        ScanKeepsMatch(s, i, m.value);
      } else {
        ScanKeepsText(s, i + 1);
        ScanKeepsChar(s, i);
      }
    }
  }

  /** A copied character in front keeps every link placed after an allowed character. */
  lemma WrapsAfterChar(c: char, rest: seq<Piece>)
    requires WrapsOnlyUrls(rest)
    ensures WrapsOnlyUrls([Char(c)] + rest)
  {
    var ps := [Char(c)] + rest;
    forall j | 0 <= j < |ps| && ps[j].Link?
      ensures 0 < j && ps[j - 1].Char? && MayPrecede(ps[j - 1].c) && IsUrl(ps[j].url)
    {
      assert ps[j] == rest[j - 1];
      if j >= 2 {
        assert ps[j - 1] == rest[j - 2];
      }
    }
  }

  /** An allowed character and a link of the pattern in front keep the property. */
  lemma WrapsAfterLink(c: char, url: string, rest: seq<Piece>)
    requires MayPrecede(c) && IsUrl(url) && WrapsOnlyUrls(rest)
    ensures WrapsOnlyUrls([Char(c), Link(url)] + rest)
  {
    var ps := [Char(c), Link(url)] + rest;
    forall j | 0 <= j < |ps| && ps[j].Link?
      ensures 0 < j && ps[j - 1].Char? && MayPrecede(ps[j - 1].c) && IsUrl(ps[j].url)
    {
      if j >= 2 {
        assert ps[j] == rest[j - 2];
        if j >= 3 {
          assert ps[j - 1] == rest[j - 3];
        }
      }
    }
  }

  /**
   * Every wrapped link is a link of the pattern, and comes right after a
   * copied character that may precede one; in particular the first piece is
   * always a copied character.
   */
  lemma {:induction false} ScanWrapsOnlyUrls(s: string, i: nat)
    requires i <= |s|
    ensures i < |s| ==> Scan(s, i)[0] == Char(s[i])
    ensures WrapsOnlyUrls(Scan(s, i))
    decreases |s| - i
  {
    if i < |s| {
      var m := MatchAt(s, i);
      if m.Some? {
        var e := m.value;
        MatchAtCorrect(s, i);
        assert IsMatch(s, i, e);
        ScanWrapsOnlyUrls(s, e);
        assert Scan(s, i) == [Char(s[i]), Link(s[i + 1..e])] + Scan(s, e);
        WrapsAfterLink(s[i], s[i + 1..e], Scan(s, e));
      } else {
        ScanWrapsOnlyUrls(s, i + 1);
        assert Scan(s, i) == [Char(s[i])] + Scan(s, i + 1);
        WrapsAfterChar(s[i], Scan(s, i + 1));
      }
    }
  }

  /** Where the scanner finds no match, the rewrite copies the text. */
  lemma {:induction false} NoMatchUnchanged(s: string, i: nat)
    requires i <= |s|
    requires forall p :: i <= p < |s| ==> MatchAt(s, p).None?
    ensures Render(Scan(s, i)) == s[i..]
    decreases |s| - i
  {
    if i < |s| {
      NoMatchUnchanged(s, i + 1);
      assert Scan(s, i) == [Char(s[i])] + Scan(s, i + 1);
      RenderAppend([Char(s[i])], Scan(s, i + 1));
      assert s[i..] == [s[i]] + s[i + 1..];
    }
  }

  /** The pieces that copy t character by character. */
  function Chars(t: string): seq<Piece>
    decreases |t|
  {
    if t == [] then [] else [Char(t[0])] + Chars(t[1..])
  }

  lemma CharsStep(s: string, i: nat, p: nat)
    requires i < p <= |s|
    ensures Chars(s[i..p]) == [Char(s[i])] + Chars(s[i + 1..p])
  {
    assert s[i..p][1..] == s[i + 1..p];
  }

  lemma {:induction false} RenderChars(t: string)
    ensures Render(Chars(t)) == t
    decreases |t|
  {
    if t != [] {
      RenderChars(t[1..]);
      RenderAppend([Char(t[0])], Chars(t[1..]));
      assert t == [t[0]] + t[1..];
    }
  }

  /**
   * The match the engine takes when it starts looking at i: the pattern
   * matches s[p..e], it matches at no position from i up to p, and no
   * longer match starts at p.
   */
  ghost predicate FirstMatch(s: string, i: nat, p: nat, e: nat)
  {
    && i <= p && IsMatch(s, p, e)
    && (forall q: nat, f: nat :: i <= q < p ==> !IsMatch(s, q, f))
    && (forall f: nat :: IsMatch(s, p, f) ==> f <= e)
  }

  lemma ConsAssoc<T>(x: T, a: seq<T>, b: seq<T>, c: seq<T>)
    ensures [x] + (a + b + c) == ([x] + a) + b + c
  {
  }

  /** The scan from i copies up to p, where the scanner finds its next match. */
  lemma {:induction false} ScanUpToMatch(s: string, i: nat, p: nat, e: nat)
    requires i <= p < |s|
    requires forall q :: i <= q < p ==> MatchAt(s, q).None?
    requires MatchAt(s, p) == Some(e)
    ensures Scan(s, i) == Chars(s[i..p]) + [Char(s[p]), Link(s[p + 1..e])] + Scan(s, e)
    decreases p - i
  {
    var link := [Char(s[p]), Link(s[p + 1..e])];
    if i == p {
      ScanStepMatch(s, i, e);
      assert Chars(s[i..p]) == [];
    } else {
      ScanStepCopy(s, i);
      ScanUpToMatch(s, i + 1, p, e);
      CharsStep(s, i, p);
      ConsAssoc(Char(s[i]), Chars(s[i + 1..p]), link, Scan(s, e));
    }
  }

  /**
   * Every first match is wrapped: the scan copies the characters before it,
   * copies its first character, wraps the rest as a link and resumes after it.
   */
  lemma ScanWrapsLeftmost(s: string, i: nat, p: nat, e: nat)
    requires FirstMatch(s, i, p, e)
    ensures Scan(s, i) == Chars(s[i..p]) + [Char(s[p]), Link(s[p + 1..e])] + Scan(s, e)
  {
    forall q | i <= q < p ensures MatchAt(s, q).None? {
      MatchAtCorrect(s, q);
    }
    MatchAtCorrect(s, p);
    assert MatchAt(s, p).Some? && IsMatch(s, p, MatchAt(s, p).value);
    ScanUpToMatch(s, i, p, e);
  }

  lemma RenderLink(c: char, url: string)
    ensures Render([Char(c), Link(url)]) == [c] + Anchor(url)
  {
    var ps := [Char(c), Link(url)];
    assert ps[1..] == [Link(url)] && ps[1..][1..] == [];
    calc {
      Render(ps);
      PieceHtml(Char(c)) + Render([Link(url)]);
      [c] + (PieceHtml(Link(url)) + Render([]));
      [c] + Anchor(url);
    }
  }

  lemma AppendAssoc<T>(a: seq<T>, b: seq<T>, c: seq<T>)
    ensures (a + b) + c == a + (b + c)
  {
  }

  /** Rendering copied characters, then a wrapped link, then more pieces. */
  lemma RenderCopyThenLink(t: string, c: char, url: string, rest: seq<Piece>)
    ensures Render(Chars(t) + [Char(c), Link(url)] + rest) == t + [c] + Anchor(url) + Render(rest)
  {
    var link := [Char(c), Link(url)];
    RenderAppend(Chars(t) + link, rest);
    RenderAppend(Chars(t), link);
    RenderChars(t);
    RenderLink(c, url);
    AppendAssoc(t, [c], Anchor(url));
  }

  lemma SliceSnoc(s: string, i: nat, p: nat)
    requires i <= p < |s|
    ensures s[i..p + 1] == s[i..p] + [s[p]]
  {
  }

  /** The rendered form of ScanWrapsLeftmost: text up to and including the preceding character, then the anchor. */
  lemma RenderWrapsLeftmost(s: string, i: nat, p: nat, e: nat)
    requires FirstMatch(s, i, p, e)
    ensures Render(Scan(s, i)) == s[i..p + 1] + Anchor(s[p + 1..e]) + Render(Scan(s, e))
  {
    ScanWrapsLeftmost(s, i, p, e);
    RenderCopyThenLink(s[i..p], s[p], s[p + 1..e], Scan(s, e));
    SliceSnoc(s, i, p);
  }

  /**
   * The rewrite in terms of its result: the output is the rendering of a
   * sequence of pieces whose visible text is the input, whose links all
   * match the pattern after a character allowed to precede them, and which
   * starts with the input's first character, so a link at the very start of
   * a text is never wrapped.
   */
  lemma LinkifySpec(text: string)
    ensures exists ps: seq<Piece> :: && Linkify(text) == Render(ps)
                                     && Visible(ps) == text
                                     && (|text| > 0 ==> ps[0] == Char(text[0]))
                                     && WrapsOnlyUrls(ps)
    ensures forall p: nat, e: nat :: FirstMatch(text, 0, p, e) ==>
              Linkify(text) == text[..p + 1] + Anchor(text[p + 1..e]) + Render(Scan(text, e))
  {
    var ps := Scan(text, 0);
    ScanKeepsText(text, 0);
    ScanWrapsOnlyUrls(text, 0);
    assert text[0..] == text;
    assert Linkify(text) == Render(ps);
    forall p: nat, e: nat | FirstMatch(text, 0, p, e)
      ensures Linkify(text) == text[..p + 1] + Anchor(text[p + 1..e]) + Render(Scan(text, e))
    {
      LinkifyWrapsFirstMatch(text, p, e);
    }
  }

  /**
   * The first match of the text is wrapped, the text before it is kept,
   * and the scan resumes right after the match.
   */
  lemma LinkifyWrapsFirstMatch(text: string, p: nat, e: nat)
    requires FirstMatch(text, 0, p, e)
    ensures Linkify(text) == text[..p + 1] + Anchor(text[p + 1..e]) + Render(Scan(text, e))
  {
    calc {
      Linkify(text);
      { RenderWrapsLeftmost(text, 0, p, e); }
      text[0..p + 1] + Anchor(text[p + 1..e]) + Render(Scan(text, e));
      { assert text[0..p + 1] == text[..p + 1]; }
      text[..p + 1] + Anchor(text[p + 1..e]) + Render(Scan(text, e));
    }
  }

  /** Text without any match of the pattern is returned as it is. */
  lemma LinkifyNoMatch(text: string)
    requires forall p: nat, e: nat :: !IsMatch(text, p, e)
    ensures Linkify(text) == text
  {
    forall p | 0 <= p < |text| ensures MatchAt(text, p).None? {
      MatchAtCorrect(text, p);
    }
    NoMatchUnchanged(text, 0);
    assert text[0..] == text;
  }
}
