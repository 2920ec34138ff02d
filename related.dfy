/**
 * `build_related_block` of site_enhance_all.py: the "You may also like"
 * block of an image page. It drops the page itself from the list of image
 * pages of its category, shuffles the rest, keeps the first
 * `k = min(max(kmin, 1), kmax, len(pages))` of them and renders one
 * thumbnail link per kept page. The shuffle is an oracle: the method is
 * given the shuffled list and demands only that it be a permutation of the
 * filtered one, so every property proved holds for every shuffle.
 */
module Related {
  import opened Text
  import opened HtmlScan

  /** An image page: its path parts relative to the site root, and its html. */
  datatype ImagePage = ImagePage(path: seq<string>, html: string)

  /** `p.name`: the last path part. */
  function Name(p: ImagePage): string
  {
    if |p.path| == 0 then "" else p.path[|p.path| - 1]
  }

  /** `[p for p in pages if p.name != exclude]`: the pages not named `exclude`, in their order. */
  function Excluding(pages: seq<ImagePage>, exclude: string): (r: seq<ImagePage>)
    ensures |r| <= |pages|
    ensures forall q :: q in r <==> q in pages && Name(q) != exclude
    ensures forall q :: multiset(r)[q] == if Name(q) != exclude then multiset(pages)[q] else 0
  {
    if pages == [] then []
    else
      assert pages == [pages[0]] + pages[1..];
      assert multiset(pages) == multiset([pages[0]]) + multiset(pages[1..]);
      (if Name(pages[0]) != exclude then [pages[0]] else []) + Excluding(pages[1..], exclude)
  }

  function Min(a: int, b: int): int
  {
    if a <= b then a else b
  }

  function Max(a: int, b: int): int
  {
    if a <= b then b else a
  }

  /**
   * `k = min(max(kmin, 1), kmax, len(pages))`: at most each of the three
   * bounds and equal to one of them. The configured bounds are arbitrary
   * integers, so `k` is negative when `kmax` is.
   */
  function RelatedCount(kmin: int, kmax: int, n: nat): (k: int)
    ensures k <= n && k <= kmax && k <= Max(kmin, 1)
    ensures k == n || k == kmax || k == Max(kmin, 1)
  {
    Min(Min(Max(kmin, 1), kmax), n)
  }

  /** The bounds of the count: never more pages than there are, at least one when there is one and `kmax` allows it. */
  lemma RelatedCountBounds(kmin: int, kmax: int, n: nat)
    ensures RelatedCount(kmin, kmax, n) <= n
    ensures RelatedCount(kmin, kmax, n) <= kmax
    ensures kmax >= 1 && n >= 1 ==> RelatedCount(kmin, kmax, n) >= 1
    ensures RelatedCount(kmin, kmax, n) == 0 <==> kmax == 0 || (n == 0 && kmax >= 0)
  {
  }

  /**
   * With the shipped defaults (`min_related_thumbs` 5, `max_related_thumbs`
   * 8) the count is `min(5, n)`: the maximum never comes into play.
   */
  lemma DefaultCount(n: nat)
    ensures RelatedCount(5, 8, n) == Min(5, n)
  {
  }

  /**
   * `s[:k]` in Python: a prefix of `s`, of length `k` capped at `|s|`, and
   * for a negative `k` all but the last `-k` elements.
   */
  function PySliceTo<T>(s: seq<T>, k: int): (r: seq<T>)
    ensures |r| <= |s| && r == s[..|r|]
    ensures k >= 0 ==> |r| == Min(k, |s|)
    ensures k < 0 ==> |r| == Max(0, |s| + k)
  {
    if k >= 0 then s[..Min(k, |s|)] else s[..Max(0, |s| + k)]
  }

  /** A thumbnail link: where it leads and the image it shows. */
  datatype Thumb = Thumb(href: string, src: string)

  /** `"/" + p.relative_to(ROOT).as_posix()`. */
  function Href(p: ImagePage): string
  {
    "/" + Join(p.path, '/')
  }

  /** The thumbnail of a page: a link to it, showing its first image. */
  function ThumbOf(p: ImagePage): Thumb
  {
    Thumb(Href(p), FirstImgSrcValue(p.html))
  }

  function ThumbList(ps: seq<ImagePage>): (r: seq<Thumb>)
    ensures |r| == |ps|
    ensures forall i :: 0 <= i < |ps| ==> r[i] == ThumbOf(ps[i])
  {
    if ps == [] then [] else ThumbList(ps[..|ps| - 1]) + [ThumbOf(ps[|ps| - 1])]
  }

  /** The markup of one thumbnail link. */
  function ThumbHtml(t: Thumb): string
  {
    "<a class=\"nb-thumb\" href=\"" + t.href + "\"><img loading=\"lazy\" src=\"" + t.src + "\" alt=\"\"></a>"
  }

  /** `"".join(...)` of the thumbnail links, in order. */
  function ThumbsHtml(ts: seq<Thumb>): string
  {
    if ts == [] then "" else ThumbsHtml(ts[..|ts| - 1]) + ThumbHtml(ts[|ts| - 1])
  }

  /** Rendering one more page appends its thumbnail link. */
  lemma ThumbsStep(ps: seq<ImagePage>, i: nat)
    requires i < |ps|
    ensures ThumbsHtml(ThumbList(ps[..i + 1])) == ThumbsHtml(ThumbList(ps[..i])) + ThumbHtml(ThumbOf(ps[i]))
  {
    assert ps[..i + 1][..i] == ps[..i];
    var l := ThumbList(ps[..i + 1]);
    assert l == ThumbList(ps[..i]) + [ThumbOf(ps[i])];
    assert l[..|l| - 1] == ThumbList(ps[..i]);
  }

  /** The idempotence marker of the related block. */
  const RelatedMark := "data-nb-related"

  const RelatedOpen := "<div class=\"nb-box\" "

  /** The related block around the joined thumbnail links. */
  function RelatedBlockText(thumbs: string): string
  {
    RelatedOpen + RelatedMark + "=\"1\">\n  <div class=\"nb-h2\">You may also like</div>\n  <div class=\"nb-grid\">" +
    thumbs + "</div>\n</div>"
  }

  /** The pages kept: the first `k` of the shuffled list (all but the last `-k` for a negative `k`). */
  function Selected(shuffled: seq<ImagePage>, kmin: int, kmax: int): (r: seq<ImagePage>)
    ensures |r| <= |shuffled| && r == shuffled[..|r|]
    ensures RelatedCount(kmin, kmax, |shuffled|) >= 0 ==> |r| == RelatedCount(kmin, kmax, |shuffled|)
  {
    PySliceTo(shuffled, RelatedCount(kmin, kmax, |shuffled|))
  }

  /**
   * What `build_related_block` returns for a given shuffle: "" exactly when
   * `k` is 0, and otherwise a block that carries its marker.
   */
  function RelatedBlock(shuffled: seq<ImagePage>, kmin: int, kmax: int): (r: string)
    ensures r != "" <==> RelatedCount(kmin, kmax, |shuffled|) != 0
    ensures r != "" ==> Contains(r, RelatedMark)
  {
    if RelatedCount(kmin, kmax, |shuffled|) == 0 then ""
    else
      var thumbs := ThumbsHtml(ThumbList(Selected(shuffled, kmin, kmax)));
      RelatedTextMarked(thumbs);
      RelatedBlockText(thumbs)
  }

  /** Once `k` is not 0, the block is the block text around the thumbnails of the kept pages. */
  lemma RelatedBlockOf(shuffled: seq<ImagePage>, kmin: int, kmax: int, sel: seq<ImagePage>)
    requires RelatedCount(kmin, kmax, |shuffled|) != 0
    requires sel == Selected(shuffled, kmin, kmax)
    ensures RelatedBlock(shuffled, kmin, kmax) == RelatedBlockText(ThumbsHtml(ThumbList(sel)))
  {
  }

  /** A permutation has the length of what it permutes. */
  lemma SameLength<T>(a: seq<T>, b: seq<T>)
    requires multiset(a) == multiset(b)
    ensures |a| == |b|
  {
    assert |multiset(a)| == |a|;
    assert |multiset(b)| == |b|;
  }

  /**
   * `build_related_block(cat, exclude_name)` with the category's image
   * pages `pages` and the oracle's shuffle `shuffled` of the filtered list.
   */
  method BuildRelated(pages: seq<ImagePage>, exclude: string, kmin: int, kmax: int, shuffled: seq<ImagePage>)
    returns (block: string)
    requires multiset(shuffled) == multiset(Excluding(pages, exclude))
    ensures block == RelatedBlock(shuffled, kmin, kmax)
    ensures block == "" <==> RelatedCount(kmin, kmax, |shuffled|) == 0
  {
    var k := Min(Min(Max(kmin, 1), kmax), |shuffled|);
    assert k == RelatedCount(kmin, kmax, |shuffled|);
    if k == 0 {
      return "";
    }
    var sel := PySliceTo(shuffled, k);
    var thumbs := "";
    for i := 0 to |sel|
      invariant thumbs == ThumbsHtml(ThumbList(sel[..i]))
    {
      ThumbsStep(sel, i);
      thumbs := thumbs + ThumbHtml(ThumbOf(sel[i]));
    }
    assert sel[..|sel|] == sel;
    block := RelatedBlockText(thumbs);
    RelatedBlockOf(shuffled, kmin, kmax, sel);
  }

  /**
   * The kept pages are pages of the category other than the excluded one,
   * there are `k` of them when `k` is not negative, and they are the first
   * of the shuffled list.
   */
  lemma SelectedFacts(pages: seq<ImagePage>, exclude: string, kmin: int, kmax: int, shuffled: seq<ImagePage>)
    requires multiset(shuffled) == multiset(Excluding(pages, exclude))
    ensures var sel := Selected(shuffled, kmin, kmax); var k := RelatedCount(kmin, kmax, |shuffled|);
      (forall q :: q in sel ==> q in pages && Name(q) != exclude) &&
      (k >= 0 ==> |sel| == k) && sel == shuffled[..|sel|] && |shuffled| == |Excluding(pages, exclude)|
  {
    SameLength(shuffled, Excluding(pages, exclude));
    var sel := Selected(shuffled, kmin, kmax);
    forall q | q in sel ensures q in pages && Name(q) != exclude {
      var i :| 0 <= i < |sel| && sel[i] == q;
      assert q == shuffled[i];
      assert q in multiset(shuffled);
      assert q in Excluding(pages, exclude);
    }
  }

  /** The block text carries the marker whatever thumbnails it holds. */
  lemma RelatedTextMarked(thumbs: string)
    ensures Contains(RelatedBlockText(thumbs), RelatedMark)
  {
    var tail := "=\"1\">\n  <div class=\"nb-h2\">You may also like</div>\n  <div class=\"nb-grid\">" + thumbs + "</div>\n</div>";
    ContainsMiddle(RelatedOpen, RelatedMark, tail);
    assert RelatedBlockText(thumbs) == RelatedOpen + RelatedMark + tail;
  }
}
