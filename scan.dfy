/**
 * The handful of regular expressions of site_enhance_all.py, written out
 * as scanners, all matched case-insensitively (`re.I`, ASCII letters) and
 * searched leftmost-first as `re.search` does:
 *   `<img[^>]+src=`             (before_grid, after_grid)
 *   `<img[^>]+src="([^"]+)"`    (find_first_img_src)
 *   `<tag[^>]*>`                (find_after, insert_cat_desc)
 *   `<tag[^>]*>.*?</tag>`       (the h1 and p searches of insert_cat_desc, with `re.S`)
 *   `browse|gallery|collection|images`
 * Each scanner is tied by its contract to a declarative description of
 * what the pattern matches.
 */
module HtmlScan {
  import opened Wrappers
  import opened Text

  /** A match: where it starts, and where it ends (for the img patterns: where its `src=` starts). */
  datatype Span = Span(start: nat, end: nat)

  /** No `>` in `s[a..b]`. */
  predicate NoGt(s: string, a: nat, b: nat)
  {
    a <= b <= |s| && forall k :: a <= k < b ==> s[k] != '>'
  }

  /** `<img` at `i`, its letters compared in lower case: the literal head of both img patterns. */
  predicate ImgOpen(s: string, i: nat)
  {
    i + 4 <= |s| && s[i] == '<' && (s[i + 1] == 'i' || s[i + 1] == 'I') && (s[i + 2] == 'm' || s[i + 2] == 'M') && (s[i + 3] == 'g' || s[i + 3] == 'G')
  }

  /** `src=` at `j`, its letters compared in lower case. */
  predicate SrcOpen(s: string, j: nat)
  {
    j + 4 <= |s| && (s[j] == 's' || s[j] == 'S') && (s[j + 1] == 'r' || s[j + 1] == 'R') && (s[j + 2] == 'c' || s[j + 2] == 'C') && s[j + 3] == '='
  }

  /** `ImgOpen` is the case-insensitive match of the literal `<img`. */
  lemma ImgOpenIff(s: string, i: nat)
    ensures ImgOpen(s, i) <==> MatchAt(s, i, "<img", true)
  {
    if MatchAt(s, i, "<img", true) {
      MatchAtLowerChar(s, i, "<img", 0);
      MatchAtLowerChar(s, i, "<img", 1);
      MatchAtLowerChar(s, i, "<img", 2);
      MatchAtLowerChar(s, i, "<img", 3);
    }
  }

  /** `SrcOpen` is the case-insensitive match of the literal `src=`. */
  lemma SrcOpenIff(s: string, j: nat)
    ensures SrcOpen(s, j) <==> MatchAt(s, j, "src=", true)
  {
    if MatchAt(s, j, "src=", true) {
      MatchAtLowerChar(s, j, "src=", 0);
      MatchAtLowerChar(s, j, "src=", 1);
      MatchAtLowerChar(s, j, "src=", 2);
      MatchAtLowerChar(s, j, "src=", 3);
    }
  }

  /** `SrcOpen` followed by `"` is the case-insensitive match of the literal `src="`. */
  lemma QuotedSrcOpenIff(s: string, j: nat)
    ensures (SrcOpen(s, j) && j + 4 < |s| && s[j + 4] == '"') <==> MatchAt(s, j, "src=\"", true)
  {
    if MatchAt(s, j, "src=\"", true) {
      MatchAtLowerChar(s, j, "src=\"", 0);
      MatchAtLowerChar(s, j, "src=\"", 1);
      MatchAtLowerChar(s, j, "src=\"", 2);
      MatchAtLowerChar(s, j, "src=\"", 3);
      MatchAtLowerChar(s, j, "src=\"", 4);
    }
  }

  /** First index at or after `from` holding `c`, or `|s|` when there is none. */
  function NextChar(s: string, c: char, from: nat): (k: nat)
    requires from <= |s|
    decreases |s| - from
    ensures from <= k <= |s|
    ensures k < |s| ==> s[k] == c
  {
    if from == |s| || s[from] == c then from else NextChar(s, c, from + 1)
  }

  /** `NextChar` skips only characters other than `c`: it finds the first one. */
  lemma {:induction false} NextCharFirst(s: string, c: char, from: nat)
    requires from <= |s|
    decreases |s| - from
    ensures forall j :: from <= j < NextChar(s, c, from) ==> s[j] != c
  {
    if from < |s| && s[from] != c {
      NextCharFirst(s, c, from + 1);
    }
  }

  // ---------------------------------------------------------------------
  // <img[^>]+src=  and  <img[^>]+src="([^"]+)"

  /**
   * The attribute part of the two img patterns, starting at `j`: `src=`,
   * or (when `quoted`) `src="` followed by at least one character other than
   * `"` and then a closing `"`.
   */
  predicate SrcAttr(s: string, j: nat, quoted: bool)
  {
    if quoted then
      SrcOpen(s, j) && j + 4 < |s| && s[j + 4] == '"' &&
      var q := NextChar(s, '"', j + 5);
      j + 5 < q < |s|
    else SrcOpen(s, j)
  }

  /** `<img`, then one or more characters other than `>`, then the attribute at `j`. */
  predicate ImgMatch(s: string, i: nat, j: nat, quoted: bool)
  {
    ImgOpen(s, i) && i + 5 <= j && NoGt(s, i + 4, j) && SrcAttr(s, j, quoted)
  }

  /** A match of `<img[^>]+src=` holds no `>`, from `<img` to the end of `src=`. */
  lemma ImgMatchNoGt(s: string, i: nat, j: nat)
    requires ImgMatch(s, i, j, false)
    ensures forall k :: i <= k < j + 4 ==> s[k] != '>'
  {
    forall k | i <= k < j + 4 ensures s[k] != '>' {
      if k < i + 4 {
        assert k == i || k == i + 1 || k == i + 2 || k == i + 3;
      } else if k >= j {
        assert k == j || k == j + 1 || k == j + 2 || k == j + 3;
      }
    }
  }

  /** Greatest `k` in `[lo, j]` at which the attribute starts (see `LastAttrSpec`). */
  function LastAttr(s: string, lo: nat, j: nat, quoted: bool): (r: Option<nat>)
    decreases j
    ensures r.Some? ==> lo <= r.value <= j && SrcAttr(s, r.value, quoted)
  {
    if j < lo then None
    else if SrcAttr(s, j, quoted) then Some(j)
    else if j == 0 then None
    else LastAttr(s, lo, j - 1, quoted)
  }

  /** No attribute starts in `[lo, j]` after the one found, and none at all when none is found. */
  lemma {:induction false} LastAttrSpec(s: string, lo: nat, j: nat, quoted: bool)
    decreases j
    ensures var r := LastAttr(s, lo, j, quoted);
      (r.Some? ==> forall k :: r.value < k <= j ==> !SrcAttr(s, k, quoted)) &&
      (r.None? ==> forall k :: lo <= k <= j ==> !SrcAttr(s, k, quoted))
  {
    if lo <= j && !SrcAttr(s, j, quoted) && j != 0 {
      LastAttrSpec(s, lo, j - 1, quoted);
    }
  }

  /**
   * Where the attribute of an img match starting at `i` begins. `[^>]+` is
   * greedy, so of all attribute positions before the tag's `>` the regex
   * engine settles on the greatest.
   */
  function ImgMatchAt(s: string, i: nat, quoted: bool): (r: Option<nat>)
    ensures r.Some? ==> ImgMatch(s, i, r.value, quoted)
  {
    if ImgOpen(s, i) then
      NextCharFirst(s, '>', i + 4);
      LastAttr(s, i + 5, NextChar(s, '>', i + 4), quoted)
    else None
  }

  /** The attribute found is the greatest one of a match at `i`, and there is none when none is found. */
  lemma ImgMatchAtSpec(s: string, i: nat, quoted: bool)
    ensures var r := ImgMatchAt(s, i, quoted);
      (r.Some? ==> forall j: nat :: ImgMatch(s, i, j, quoted) ==> j <= r.value) &&
      (r.None? ==> forall j: nat :: !ImgMatch(s, i, j, quoted))
  {
    if ImgOpen(s, i) {
      var g := NextChar(s, '>', i + 4);
      NextCharFirst(s, '>', i + 4);
      LastAttrSpec(s, i + 5, g, quoted);
      assert forall j: nat :: ImgMatch(s, i, j, quoted) ==> j <= g;
    }
  }

  /** Leftmost img match starting at or after `from`; `end` is where its attribute starts. */
  function FindImg(s: string, from: nat, quoted: bool): (r: Option<Span>)
    decreases |s| - from
    ensures r.Some? ==> from <= r.value.start && r.value.start + 5 <= r.value.end && r.value.end + 4 <= |s|
    ensures r.Some? ==> ImgMatchAt(s, r.value.start, quoted) == Some(r.value.end)
  {
    if from >= |s| then None
    else match ImgMatchAt(s, from, quoted)
      case Some(j) => Some(Span(from, j))
      case None => FindImg(s, from + 1, quoted)
  }

  /** No match starts between `from` and the one found, and none at all when none is found. */
  lemma FindImgSpec(s: string, from: nat, quoted: bool)
    ensures var r := FindImg(s, from, quoted);
      (r.Some? ==> forall i :: from <= i < r.value.start ==> ImgMatchAt(s, i, quoted).None?) &&
      (r.None? ==> forall i :: from <= i ==> ImgMatchAt(s, i, quoted).None?)
  {
    FindImgLeftmost(s, from, quoted);
    FindImgNone(s, from, quoted);
  }

  lemma {:induction false} FindImgLeftmost(s: string, from: nat, quoted: bool)
    decreases |s| - from
    ensures FindImg(s, from, quoted).Some? ==>
      forall i :: from <= i < FindImg(s, from, quoted).value.start ==> ImgMatchAt(s, i, quoted).None?
  {
    if from < |s| && ImgMatchAt(s, from, quoted).None? {
      FindImgLeftmost(s, from + 1, quoted);
    }
  }

  lemma {:induction false} FindImgNone(s: string, from: nat, quoted: bool)
    decreases |s| - from
    ensures FindImg(s, from, quoted).None? ==> forall i :: from <= i ==> ImgMatchAt(s, i, quoted).None?
  {
    if from >= |s| {
      forall i | from <= i ensures ImgMatchAt(s, i, quoted).None? {
        NoImgPastEnd(s, i, quoted);
      }
    } else if ImgMatchAt(s, from, quoted).None? {
      FindImgNone(s, from + 1, quoted);
    }
  }

  /** No match starts at or past the end of the text. */
  lemma NoImgPastEnd(s: string, i: nat, quoted: bool)
    requires |s| <= i
    ensures ImgMatchAt(s, i, quoted).None?
  {
  }

  /**
   * `find_first_img_src`: the value of the `src="..."` attribute of the
   * leftmost `<img` tag that has one, or "" when there is none. The value is
   * never empty, holds no `"`, is read from just after that tag's `src="`
   * and is immediately followed by `"`.
   */
  function FirstImgSrcValue(s: string): (v: string)
    ensures v == "" <==> forall i :: ImgMatchAt(s, i, true).None?
    ensures FindImg(s, 0, true).Some? ==> var m := FindImg(s, 0, true).value;
      v != "" && SrcOpen(s, m.end) && s[m.end + 4] == '"' && m.end + 5 + |v| < |s| &&
      s[m.end + 5..m.end + 5 + |v|] == v && s[m.end + 5 + |v|] == '"'
    ensures forall k :: 0 <= k < |v| ==> v[k] != '"'
  {
    FindImgSpec(s, 0, true);
    match FindImg(s, 0, true)
    case None => ""
    case Some(m) =>
      var q := NextChar(s, '"', m.end + 5);
      NextCharFirst(s, '"', m.end + 5);
      assert m.end + 5 < q < |s|;
      var v := s[m.end + 5..q];
      assert |v| == q - (m.end + 5);
      assert ImgMatchAt(s, m.start, true).Some?;
      v
  }

  // ---------------------------------------------------------------------
  // <tag[^>]*>

  /** `s[i..e]` is matched by `<tag[^>]*>`, where `open` is `<tag` in lower case. */
  predicate OpenTag(s: string, i: nat, e: nat, open: string)
  {
    MatchAt(s, i, open, true) && i + |open| < e <= |s| && s[e - 1] == '>' && NoGt(s, i + |open|, e - 1)
  }

  /** End of the opening tag that starts at `i`; it closes at the first `>` after the name. */
  function OpenTagAt(s: string, i: nat, open: string): (r: Option<nat>)
    ensures r.Some? ==> i + |open| < r.value <= |s| && s[r.value - 1] == '>'
  {
    if MatchAt(s, i, open, true) then
      var g := NextChar(s, '>', i + |open|);
      if g < |s| then Some(g + 1) else None
    else None
  }

  /** What `OpenTagAt` finds is an opening tag. */
  lemma OpenTagAtMatches(s: string, i: nat, open: string)
    ensures OpenTagAt(s, i, open).Some? ==> OpenTag(s, i, OpenTagAt(s, i, open).value, open)
  {
    if MatchAt(s, i, open, true) {
      NextCharFirst(s, '>', i + |open|);
    }
  }

  /** The opening tag at `i` closes at the first `>`: every match there ends where the one found ends. */
  lemma OpenTagAtSpec(s: string, i: nat, open: string)
    ensures forall e: nat :: OpenTag(s, i, e, open) ==> OpenTagAt(s, i, open) == Some(e)
  {
    if MatchAt(s, i, open, true) {
      var g := NextChar(s, '>', i + |open|);
      NextCharFirst(s, '>', i + |open|);
      assert forall e: nat :: OpenTag(s, i, e, open) ==> e == g + 1;
    }
  }

  /** Leftmost opening tag at or after `from`. */
  function FindOpenTag(s: string, open: string, from: nat): (r: Option<Span>)
    decreases |s| - from
    ensures r.Some? ==> from <= r.value.start && OpenTagAt(s, r.value.start, open) == Some(r.value.end)
  {
    if from >= |s| then None
    else match OpenTagAt(s, from, open)
      case Some(e) => Some(Span(from, e))
      case None => FindOpenTag(s, open, from + 1)
  }

  /** No opening tag starts between `from` and the one found, and none at all when none is found. */
  lemma {:induction false} FindOpenTagSpec(s: string, open: string, from: nat)
    decreases |s| - from
    ensures var r := FindOpenTag(s, open, from);
      (r.Some? ==> forall i: nat, e: nat :: from <= i < r.value.start ==> !OpenTag(s, i, e, open)) &&
      (r.None? ==> forall i: nat, e: nat :: from <= i ==> !OpenTag(s, i, e, open))
  {
    OpenTagAtSpec(s, from, open);
    if from < |s| && OpenTagAt(s, from, open).None? {
      FindOpenTagSpec(s, open, from + 1);
    }
  }

  /** `find_after(tag, s)`: the end of the leftmost `<tag...>`. It always follows a `>`, so it is never 0. */
  function FindAfter(s: string, open: string): (r: Option<nat>)
    ensures r.Some? ==> 0 < r.value <= |s| && s[r.value - 1] == '>'
  {
    match FindOpenTag(s, open, 0)
    case None => None
    case Some(m) => Some(m.end)
  }

  /** `e` ends the leftmost `<tag[^>]*>` of `s`. */
  ghost predicate LeftmostTagEnd(s: string, e: nat, open: string)
  {
    exists i: nat :: OpenTag(s, i, e, open) && forall i': nat, e': nat :: i' < i ==> !OpenTag(s, i', e', open)
  }

  /** `find_after` finds nothing exactly when no opening tag occurs anywhere; otherwise it ends the leftmost one. */
  lemma FindAfterSpec(s: string, open: string)
    ensures FindAfter(s, open).None? <==> forall i: nat, e: nat :: !OpenTag(s, i, e, open)
    ensures FindAfter(s, open).Some? ==> exists i: nat :: (OpenTag(s, i, FindAfter(s, open).value, open) &&
      forall i': nat, e: nat :: i' < i ==> !OpenTag(s, i', e, open))
  {
    FindOpenTagSpec(s, open, 0);
    if FindOpenTag(s, open, 0).Some? {
      var m := FindOpenTag(s, open, 0).value;
      OpenTagAtMatches(s, m.start, open);
    }
  }

  // ---------------------------------------------------------------------
  // <tag[^>]*>.*?</tag>

  /**
   * End of the element that starts at `i`: its opening tag, then as few
   * characters as possible (any character, `re.S`) up to the first closing
   * tag `close`.
   */
  function ElementAt(s: string, i: nat, open: string, close: string): (r: Option<nat>)
    ensures r.Some? ==> OpenTagAt(s, i, open).Some?
    ensures r.Some? ==> var t := OpenTagAt(s, i, open).value;
      t + |close| <= r.value && MatchAt(s, r.value - |close|, close, true)
  {
    match OpenTagAt(s, i, open)
    case None => None
    case Some(t) =>
      match Find(s, close, t, true)
      case None => None
      case Some(c) => Some(c + |close|)
  }

  /** The element closes at the first closing tag after its opening tag, and there is none without one. */
  lemma ElementAtSpec(s: string, i: nat, open: string, close: string)
    ensures var r := ElementAt(s, i, open, close);
      (r.Some? ==> forall c :: OpenTagAt(s, i, open).value <= c < r.value - |close| ==> !MatchAt(s, c, close, true)) &&
      (r.None? <==> (OpenTagAt(s, i, open).None? ||
        forall c :: OpenTagAt(s, i, open).value <= c ==> !MatchAt(s, c, close, true)))
  {
    if OpenTagAt(s, i, open).Some? {
      FindSpec(s, close, OpenTagAt(s, i, open).value, true);
    }
  }

  /** No element starts at or past the end of the text. */
  lemma NoElementPastEnd(s: string, i: nat, open: string, close: string)
    requires |s| <= i
    ensures ElementAt(s, i, open, close).None?
  {
  }

  /** Leftmost element at or after `from`. */
  function FindElement(s: string, open: string, close: string, from: nat): (r: Option<Span>)
    decreases |s| - from
    ensures r.Some? ==> from <= r.value.start && ElementAt(s, r.value.start, open, close) == Some(r.value.end)
  {
    if from >= |s| then None
    else match ElementAt(s, from, open, close)
      case Some(e) => Some(Span(from, e))
      case None => FindElement(s, open, close, from + 1)
  }

  /** No element starts between `from` and the one found, and none at all when none is found. */
  lemma FindElementSpec(s: string, open: string, close: string, from: nat)
    ensures var r := FindElement(s, open, close, from);
      (r.Some? ==> forall i :: from <= i < r.value.start ==> ElementAt(s, i, open, close).None?) &&
      (r.None? ==> forall i :: from <= i ==> ElementAt(s, i, open, close).None?)
  {
    FindElementLeftmost(s, open, close, from);
    FindElementNone(s, open, close, from);
  }

  lemma {:induction false} FindElementLeftmost(s: string, open: string, close: string, from: nat)
    decreases |s| - from
    ensures FindElement(s, open, close, from).Some? ==>
      forall i :: from <= i < FindElement(s, open, close, from).value.start ==> ElementAt(s, i, open, close).None?
  {
    if from < |s| && ElementAt(s, from, open, close).None? {
      FindElementLeftmost(s, open, close, from + 1);
    }
  }

  lemma {:induction false} FindElementNone(s: string, open: string, close: string, from: nat)
    decreases |s| - from
    ensures FindElement(s, open, close, from).None? ==> forall i :: from <= i ==> ElementAt(s, i, open, close).None?
  {
    if from >= |s| {
      forall i | from <= i ensures ElementAt(s, i, open, close).None? {
        NoElementPastEnd(s, i, open, close);
      }
    } else if ElementAt(s, from, open, close).None? {
      FindElementNone(s, open, close, from + 1);
    }
  }

  /** `m` is the leftmost element of `s`: an element spans `m`, and none starts before it. */
  predicate FirstElement(s: string, open: string, close: string, m: Span)
  {
    m.start <= m.end <= |s| && ElementAt(s, m.start, open, close) == Some(m.end) &&
    forall i :: 0 <= i < m.start ==> ElementAt(s, i, open, close).None?
  }

  /** The search from the start of the text finds exactly the leftmost element. */
  lemma FindElementFirst(s: string, open: string, close: string)
    ensures forall m :: FindElement(s, open, close, 0) == Some(m) <==> FirstElement(s, open, close, m)
  {
    FindElementSpec(s, open, close, 0);
    var f := FindElement(s, open, close, 0);
    if f.Some? {
      ElementWithinText(s, open, close, 0);
    }
    forall m | FirstElement(s, open, close, m) ensures f == Some(m) {
      assert ElementAt(s, m.start, open, close).Some?;
      assert f.Some?;
      assert !(f.value.start < m.start);
      assert !(m.start < f.value.start);
    }
  }

  /** Every matched element lies within the text and ends with its closing tag. */
  lemma ElementWithinText(s: string, open: string, close: string, from: nat)
    requires FindElement(s, open, close, from).Some?
    ensures var m := FindElement(s, open, close, from).value;
      m.start + |open| + 1 + |close| <= m.end <= |s| &&
      MatchAt(s, m.start, open, true) && MatchAt(s, m.end - |close|, close, true)
  {
  }

  // ---------------------------------------------------------------------
  // browse|gallery|collection|images

  /** `re.search(r"browse|gallery|collection|images", seg, flags=re.I)` succeeds. */
  predicate MentionsGallery(seg: string)
  {
    Find(seg, "browse", 0, true).Some? || Find(seg, "gallery", 0, true).Some? ||
    Find(seg, "collection", 0, true).Some? || Find(seg, "images", 0, true).Some?
  }

  /** The keyword test: true exactly when one of the four words occurs somewhere, in any case. */
  lemma MentionsGalleryIff(seg: string)
    ensures MentionsGallery(seg) <==>
      exists i, w :: w in ["browse", "gallery", "collection", "images"] && MatchAt(seg, i, w, true)
  {
    FindSpec(seg, "browse", 0, true);
    FindSpec(seg, "gallery", 0, true);
    FindSpec(seg, "collection", 0, true);
    FindSpec(seg, "images", 0, true);
    if MentionsGallery(seg) {
      if Find(seg, "browse", 0, true).Some? {
        assert MatchAt(seg, Find(seg, "browse", 0, true).value, "browse", true);
      } else if Find(seg, "gallery", 0, true).Some? {
        assert MatchAt(seg, Find(seg, "gallery", 0, true).value, "gallery", true);
      } else if Find(seg, "collection", 0, true).Some? {
        assert MatchAt(seg, Find(seg, "collection", 0, true).value, "collection", true);
      } else {
        assert MatchAt(seg, Find(seg, "images", 0, true).value, "images", true);
      }
    }
  }
}
