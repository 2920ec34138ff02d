/**
 * The page patches of site_enhance_all.py and their idempotence guards:
 * `insert_cat_desc` (category description), `build_collections_links` with
 * `patch_category_page`, and `patch_image_page`. Each patch first looks for
 * its `data-nb-*` marker and leaves a page that has it alone; every block
 * it inserts carries that marker, so running a patch twice changes nothing
 * the second time. Reading and writing files is left to the caller: each
 * operation maps the page's html to what would be written, if anything.
 */
module Patch {
  import opened Wrappers
  import opened Text
  import opened HtmlScan
  import opened Insert
  import opened Pages
  import opened Related
  import opened Tags

  const CatDescMark := "data-nb-catdesc"
  const CollectionsMark := "data-nb-collections"
  const VariantMark := "data-nb-variant"

  // ---------------------------------------------------------------------
  // insert_cat_desc

  /** What `insert_cat_desc` reports, with the html it writes when it writes one. */
  datatype CatDescOutcome = Exists | Replaced(html: string) | Inserted(html: string) | NoInsertPoint

  /** The new description paragraph around the expanded template `desc`. */
  function NewDescParagraph(desc: string): string
  {
    "<p " + CatDescMark + "=\"1\">" + desc + "</p>"
  }

  /** The paragraph always carries the marker. */
  lemma NewDescParagraphMarked(desc: string)
    ensures Contains(NewDescParagraph(desc), CatDescMark)
  {
    var p := NewDescParagraph(desc);
    assert p[3..3 + |CatDescMark|] == CatDescMark;
    ContainsAt(p, 3, CatDescMark);
  }

  /** The first paragraph after the h1 is short and reads like the stock "Browse ... images" line. */
  predicate StockParagraph(seg: string)
  {
    |seg| < 220 && MentionsGallery(seg)
  }

  /**
   * End of the first h1 element (`<h1[^>]*>.*?</h1>`): the end of the
   * leftmost element, and nothing exactly when the page has no h1 element.
   */
  function H1End(html: string): (r: Option<nat>)
    ensures r.Some? ==> r.value <= |html| && exists m :: FirstElement(html, "<h1", "</h1>", m) && m.end == r.value
    ensures r.None? <==> forall i :: ElementAt(html, i, "<h1", "</h1>").None?
  {
    FindElementSpec(html, "<h1", "</h1>", 0);
    FindElementFirst(html, "<h1", "</h1>");
    match FindElement(html, "<h1", "</h1>", 0)
    case None => None
    case Some(h1) => Some(h1.end)
  }

  /**
   * The first paragraph element of `after` (`<p[^>]*>.*?</p>`) when it is a
   * stock one; nothing exactly when `after` has no paragraph element or its
   * first one is not a stock one.
   */
  function StockParagraphIn(after: string): (r: Option<Span>)
    ensures r.Some? ==> r.value.start <= r.value.end <= |after|
    ensures r.Some? ==> FirstElement(after, "<p", "</p>", r.value) && StockParagraph(after[r.value.start..r.value.end])
    ensures r.None? <==> ((forall i :: ElementAt(after, i, "<p", "</p>").None?) ||
                          exists m :: FirstElement(after, "<p", "</p>", m) && !StockParagraph(after[m.start..m.end]))
  {
    FindElementSpec(after, "<p", "</p>", 0);
    FindElementFirst(after, "<p", "</p>");
    match FindElement(after, "<p", "</p>", 0)
    case None => None
    case Some(mp) =>
      if StockParagraph(after[mp.start..mp.end]) then Some(mp) else None
  }

  /**
   * Without an h1: the end of the leftmost `<main ...>` tag when the page
   * has one, else of the leftmost `<body ...>` tag; nothing exactly when it
   * has neither.
   */
  function MainOrBody(html: string): (r: Option<nat>)
    ensures r.Some? ==> 0 < r.value <= |html|
    ensures r.None? <==> (forall i: nat, e: nat :: !OpenTag(html, i, e, "<main")) &&
                         (forall i: nat, e: nat :: !OpenTag(html, i, e, "<body"))
    ensures (exists i: nat, e: nat :: OpenTag(html, i, e, "<main")) ==> r == FindAfter(html, "<main")
    ensures (forall i: nat, e: nat :: !OpenTag(html, i, e, "<main")) ==> r == FindAfter(html, "<body")
  {
    FindAfterSpec(html, "<main");
    FindAfterSpec(html, "<body");
    if FindAfter(html, "<main").Some? then FindAfter(html, "<main") else FindAfter(html, "<body")
  }

  /**
   * Where `insert_cat_desc` puts the paragraph `newp` once the marker check
   * has passed: in place of the first paragraph after the first h1 when it
   * is a stock one; else right after the h1; without an h1, right after the
   * `<main>`, else the `<body>` opening tag.
   */
  function PlaceCatDesc(html: string, newp: string): (r: CatDescOutcome)
    ensures r != Exists
    ensures r == NoInsertPoint <==> H1End(html).None? && MainOrBody(html).None?
  {
    match H1End(html)
    case Some(e) =>
      var after := html[e..];
      (match StockParagraphIn(after)
       case Some(mp) => Replaced(html[..e] + after[..mp.start] + newp + after[mp.end..])
       case None => Inserted(html[..e] + "\n" + newp + "\n" + html[e..]))
    case None =>
      match MainOrBody(html)
      case None => NoInsertPoint
      case Some(m) => Inserted(html[..m] + "\n" + newp + "\n" + html[m..])
  }

  /**
   * `insert_cat_desc` on the page `html`, with `desc` the expanded template
   * chosen for it: a page that has the marker is left untouched, and only
   * such a page; whatever is written carries the marker.
   */
  function InsertCatDesc(html: string, desc: string): (r: CatDescOutcome)
    ensures r == Exists <==> Contains(html, CatDescMark)
    ensures r.Replaced? || r.Inserted? ==> Contains(r.html, CatDescMark)
  {
    if Contains(html, CatDescMark) then Exists
    else
      NewDescParagraphMarked(desc);
      var r := PlaceCatDesc(html, NewDescParagraph(desc));
      if r.Replaced? || r.Inserted? then
        PlacedKeeps(html, NewDescParagraph(desc), CatDescMark);
        r
      else r
  }

  /**
   * The paragraph is replaced exactly when there is an h1 element followed
   * by a paragraph element that is shorter than 220 characters and mentions
   * browse, gallery, collection or images.
   */
  lemma CatDescReplacedIff(html: string, desc: string)
    ensures InsertCatDesc(html, desc).Replaced? <==>
      !Contains(html, CatDescMark) && H1End(html).Some? && StockParagraphIn(html[H1End(html).value..]).Some?
  {
  }

  /** When the paragraph is replaced, that paragraph and nothing else gives way to the new one. */
  lemma ReplacedInPlace(html: string, newp: string)
    requires PlaceCatDesc(html, newp).Replaced?
    ensures var e := H1End(html).value;
      var mp := StockParagraphIn(html[e..]).value;
      e + mp.end <= |html| &&
      PlaceCatDesc(html, newp).html == html[..e + mp.start] + newp + html[e + mp.end..]
  {
    var e := H1End(html).value;
    var after := html[e..];
    var mp := StockParagraphIn(after).value;
    var out := PlaceCatDesc(html, newp).html;
    assert out == html[..e] + after[..mp.start] + newp + after[mp.end..];
    assert mp.start <= mp.end <= |after|;
    ReplaceSegment(html, e, mp.start, mp.end, newp);
  }

  /** On insertion, the splice point is the end of the h1 element if any, else the end of the `<main>` or `<body>` tag. */
  lemma InsertedAtIndex(html: string, newp: string)
    requires PlaceCatDesc(html, newp).Inserted?
    ensures
      var idx := if H1End(html).Some? then H1End(html).value else if MainOrBody(html).Some? then MainOrBody(html).value else 0;
      idx <= |html| && PlaceCatDesc(html, newp).html == Splice(html, idx, newp)
  {
  }

  /**
   * When the description is inserted rather than swapped in, it is spliced
   * in at the end of the leftmost h1 element when that element is not
   * followed by a stock paragraph; with no h1 element at all, at the end of
   * the leftmost `<main>` opening tag, or of the leftmost `<body>` opening
   * tag when there is no `<main>` tag.
   */
  lemma InsertedSplice(html: string, newp: string)
    requires PlaceCatDesc(html, newp).Inserted?
    ensures exists idx: nat ::
      idx <= |html| && PlaceCatDesc(html, newp).html == Splice(html, idx, newp) &&
      ((exists m :: FirstElement(html, "<h1", "</h1>", m) && m.end == idx && StockParagraphIn(html[idx..]).None?) ||
       ((forall i :: ElementAt(html, i, "<h1", "</h1>").None?) &&
        (LeftmostTagEnd(html, idx, "<main") ||
         ((forall i: nat, e: nat :: !OpenTag(html, i, e, "<main")) && LeftmostTagEnd(html, idx, "<body")))))
  {
    InsertedAtIndex(html, newp);
    FindAfterSpec(html, "<main");
    FindAfterSpec(html, "<body");
    var idx := if H1End(html).Some? then H1End(html).value else MainOrBody(html).value;
    assert idx <= |html| && PlaceCatDesc(html, newp).html == Splice(html, idx, newp);
  }

  /** The description is not placed only when there is no h1 element and no `<main>` or `<body>` tag. */
  lemma CatDescNoInsertPointIff(html: string, desc: string)
    ensures InsertCatDesc(html, desc) == NoInsertPoint <==>
      !Contains(html, CatDescMark) && FindElement(html, "<h1", "</h1>", 0).None? &&
      FindAfter(html, "<main").None? && FindAfter(html, "<body").None?
  {
  }

  /** Whatever the placement writes contains the new paragraph. */
  lemma PlacedKeeps(html: string, newp: string, w: string)
    requires PlaceCatDesc(html, newp).Replaced? || PlaceCatDesc(html, newp).Inserted?
    requires Contains(newp, w)
    ensures Contains(PlaceCatDesc(html, newp).html, w)
  {
    if PlaceCatDesc(html, newp).Replaced? {
      ReplacedInPlace(html, newp);
      var e := H1End(html).value;
      var mp := StockParagraphIn(html[e..]).value;
      ContainsInFrame(html[..e + mp.start], newp, html[e + mp.end..], w);
    } else {
      InsertedAtIndex(html, newp);
      var idx := if H1End(html).Some? then H1End(html).value else if MainOrBody(html).Some? then MainOrBody(html).value else 0;
      SpliceKeeps(html, idx, newp, w);
    }
  }

  /** Once the description is written, running `insert_cat_desc` again reports "exists". */
  lemma CatDescIdempotent(html: string, desc: string, desc2: string)
    requires InsertCatDesc(html, desc).Replaced? || InsertCatDesc(html, desc).Inserted?
    ensures InsertCatDesc(InsertCatDesc(html, desc).html, desc2) == Exists
  {
  }

  // ---------------------------------------------------------------------
  // The variant attribute on <body

  /** The attribute text that follows `<body`: ` data-nb-variant="X"`. */
  function VariantAttr(v: Variant): string
  {
    " " + VariantMark + "=\"" + VariantName(v) + "\""
  }

  /**
   * `html.replace("<body", '<body data-nb-variant="X"', 1)`: case-sensitive,
   * first occurrence only, so the attribute is added once or not at all.
   */
  function TagBody(s: string, v: Variant): (r: string)
    ensures |r| == |s| + (if Contains(s, "<body") then |VariantAttr(v)| else 0)
  {
    ReplaceFirstExtends(s, "<body", VariantAttr(v));
    ReplaceFirst(s, "<body", "<body" + VariantAttr(v))
  }

  /**
   * The variant attribute goes in once, right after the first `<body`
   * (exactly as written, in lower case); a page without one is unchanged.
   */
  lemma TagBodyOnce(s: string, v: Variant)
    ensures Contains(s, "<body") ==>
      var i := Find(s, "<body", 0, false).value;
      TagBody(s, v) == s[..i + 5] + VariantAttr(v) + s[i + 5..] &&
      forall j: nat :: j < i ==> !MatchAt(s, j, "<body", false)
    ensures !Contains(s, "<body") ==> TagBody(s, v) == s
  {
    FindSpec(s, "<body", 0, false);
    ReplaceFirstExtends(s, "<body", VariantAttr(v));
  }

  /** No `y` in `w`, the last letter of `<body`. */
  predicate NoY(w: string)
  {
    forall k :: 0 <= k < |w| ==> w[k] != 'y'
  }

  /** The two block markers hold neither `"` nor `y`. */
  lemma MarksPlain(w: string)
    requires w == CollectionsMark || w == RelatedMark
    ensures Unquoted(w) && NoY(w)
  {
  }

  /** Text without `y` survives the insertion of the variant attribute. */
  lemma TagBodyKeeps(s: string, v: Variant, w: string)
    requires Contains(s, w) && NoY(w)
    ensures Contains(TagBody(s, v), w)
  {
    TagBodyOnce(s, v);
    if Contains(s, "<body") {
      var i := Find(s, "<body", 0, false).value;
      assert s[i..i + 5] == "<body";
      assert s[i + 4] == 'y';
      ContainsAfterInsert(s, i + 5, VariantAttr(v), w);
    }
  }

  /**
   * A marker in a block survives the whole patch: placement in any layout,
   * the splice, and the variant attribute. It holds for both block markers.
   */
  lemma MarkSurvivesPatch(html: string, idx: nat, blk: string, pos: Position, v: Variant, w: string)
    requires idx <= |html|
    requires Contains(blk, w) && Unquoted(w) && NoY(w)
    ensures Contains(TagBody(Splice(html, idx, PlacedBlock(blk, pos)), v), w)
  {
    PlacedBlockKeepsMarker(blk, pos, w);
    SpliceKeeps(html, idx, PlacedBlock(blk, pos), w);
    TagBodyKeeps(Splice(html, idx, PlacedBlock(blk, pos)), v, w);
  }

  // ---------------------------------------------------------------------
  // build_collections_links and patch_category_page

  const LinkOpen := "<span class=\"nb-tag\"><a href=\""

  /** One tag link of the collections block. */
  function CollectionLink(c: Collection): string
  {
    LinkOpen + "/tags/" + c.slug + ".html\">" + c.title + "</a></span>"
  }

  /** `"".join(links)`: every collection's link target is among the joined links. */
  function CollectionLinks(cs: seq<Collection>): (r: string)
    ensures forall k :: 0 <= k < |cs| ==> Contains(r, FirstPageLink(cs[k]))
  {
    if cs == [] then ""
    else
      var init := cs[..|cs| - 1];
      var last := cs[|cs| - 1];
      var links := CollectionLinks(init);
      LastLinkReach(links, last);
      assert forall k :: 0 <= k < |cs| - 1 ==> Contains(links + CollectionLink(last), FirstPageLink(cs[k])) by {
        forall k | 0 <= k < |cs| - 1 ensures Contains(links + CollectionLink(last), FirstPageLink(cs[k])) {
          assert init[k] == cs[k];
          ContainsExtend(links, CollectionLink(last), FirstPageLink(cs[k]));
        }
      }
      links + CollectionLink(last)
  }

  const CollectionsOpen := "<div class=\"nb-box\" "
  const CollectionsHead := "=\"1\">\n  <div class=\"nb-h2\">Top Collections</div>\n  <div class=\"nb-tags\">"

  /**
   * `build_collections_links`: the "Top Collections" block with one tag link
   * per collection. It is never empty and carries its marker.
   */
  function CollectionsBlock(cs: seq<Collection>): (r: string)
    ensures r != ""
    ensures Contains(r, CollectionsMark)
  {
    var tail := CollectionsHead + CollectionLinks(cs) + "</div>\n</div>";
    ContainsMiddle(CollectionsOpen, CollectionsMark, tail);
    assert CollectionsOpen + CollectionsMark + tail ==
      CollectionsOpen + CollectionsMark + CollectionsHead + CollectionLinks(cs) + "</div>\n</div>";
    CollectionsOpen + CollectionsMark + CollectionsHead + CollectionLinks(cs) + "</div>\n</div>"
  }

  /** Where the link of a collection leads: its first tag page. */
  function FirstPageLink(c: Collection): string
  {
    "/tags/" + FileName(c.slug, 0)
  }

  lemma LinkShape(c: Collection)
    ensures CollectionLink(c) == LinkOpen + FirstPageLink(c) + ("\">" + c.title + "</a></span>")
  {
  }

  /** The link just appended holds its own target. */
  lemma LastLinkReach(links: string, c: Collection)
    ensures Contains(links + CollectionLink(c), FirstPageLink(c))
  {
    LinkShape(c);
    var tail := "\">" + c.title + "</a></span>";
    ContainsMiddle(links + LinkOpen, FirstPageLink(c), tail);
    assert links + CollectionLink(c) == links + LinkOpen + FirstPageLink(c) + tail;
  }

  /**
   * Every collection's link leads to the first page `ensure_tags_pages`
   * writes for it, whatever thumbnails `ms` that collection gathers.
   */
  lemma CollectionLinksLeadToTagPages(cs: seq<Collection>, k: nat, ms: seq<Thumb>)
    requires k < |cs|
    ensures Contains(CollectionsBlock(cs), FirstPageLink(cs[k]))
    ensures FirstPageLink(cs[k]) == "/tags/" + TagPages(cs[k].slug, ms)[0].file
  {
    ContainsInFrame(CollectionsOpen + CollectionsMark + CollectionsHead, CollectionLinks(cs), "</div>\n</div>", FirstPageLink(cs[k]));
  }

  /** The layout of a category page per variant: A above, B sidebar, C below. */
  function CategoryPosition(v: Variant): Position
  {
    match v
    case A => Above
    case B => Sidebar
    case C => Below
  }

  /**
   * What `patch_category_page` writes, if anything: nothing when the page
   * already has the collections marker or the block finds no place;
   * otherwise the page with the block inserted and the variant attribute on
   * its `<body` tag.
   */
  function CategoryPatched(html: string, v: Variant, blk: string): (r: Option<string>)
    ensures Contains(html, CollectionsMark) ==> r.None?
    ensures blk != "" ==> (r.None? <==> Contains(html, CollectionsMark) || InsertionPoint(html, CategoryPosition(v)).None?)
  {
    var pos := CategoryPosition(v);
    if Contains(html, CollectionsMark) || blk == "" then None
    else match InsertionPoint(html, pos)
      case None => None
      case Some(i) => Some(TagBody(Splice(html, i, PlacedBlock(blk, pos)), v))
  }

  /** `patch_category_page(p, variant)` on the page's html, with the configured collections. */
  method PatchCategoryPage(html: string, v: Variant, cs: seq<Collection>) returns (written: Option<string>)
    ensures written == CategoryPatched(html, v, CollectionsBlock(cs))
  {
    var page := html;
    var changed := false;
    if !Contains(page, CollectionsMark) {
      var blk := CollectionsBlock(cs);
      var html2, ok := InsertBlock(page, blk, CategoryPosition(v));
      if ok {
        page, changed := html2, true;
      }
    }
    if changed {
      written := Some(TagBody(page, v));
    } else {
      written := None;
    }
  }

  /** A category page is skipped when it has the marker or the block finds no place; otherwise it is written. */
  lemma CategoryPatchedNoneIff(html: string, v: Variant, cs: seq<Collection>)
    ensures CategoryPatched(html, v, CollectionsBlock(cs)).None? <==>
      Contains(html, CollectionsMark) || InsertionPoint(html, CategoryPosition(v)).None?
  {
  }

  lemma CategoryPatchedShape(html: string, v: Variant, blk: string)
    requires CategoryPatched(html, v, blk).Some?
    ensures InsertionPoint(html, CategoryPosition(v)).Some? && CategoryPatched(html, v, blk).value ==
      TagBody(Splice(html, InsertionPoint(html, CategoryPosition(v)).value, PlacedBlock(blk, CategoryPosition(v))), v)
  {
  }

  /** A category page patched once is skipped by every later run, whatever its variant. */
  lemma CategoryPatchIdempotent(html: string, v: Variant, cs: seq<Collection>, v2: Variant, blk2: string)
    requires CategoryPatched(html, v, CollectionsBlock(cs)).Some?
    ensures CategoryPatched(CategoryPatched(html, v, CollectionsBlock(cs)).value, v2, blk2).None?
  {
    var blk := CollectionsBlock(cs);
    CategoryPatchedShape(html, v, blk);
    var w := CollectionsMark;
    MarksPlain(w);
    MarkSurvivesPatch(html, InsertionPoint(html, CategoryPosition(v)).value, blk, CategoryPosition(v), v, w);
  }

  // ---------------------------------------------------------------------
  // patch_image_page

  /** What `patch_image_page` reports, with the html it writes when it writes one. */
  datatype ImageOutcome = RelatedExists | NoRelated | NoInsertPlace | Patched(html: string)

  /** The layout of an image page per variant: A below, B sidebar, C below. */
  function ImagePosition(v: Variant): Position
  {
    match v
    case A => Below
    case B => Sidebar
    case C => Below
  }

  /** What `patch_image_page` does with the page `html` and the related block `blk`. */
  function ImagePatched(html: string, v: Variant, blk: string): (r: ImageOutcome)
    ensures r == RelatedExists <==> Contains(html, RelatedMark)
    ensures r == NoRelated <==> !Contains(html, RelatedMark) && blk == ""
    ensures r == NoInsertPlace <==> !Contains(html, RelatedMark) && blk != "" && InsertionPoint(html, ImagePosition(v)).None?
  {
    var pos := ImagePosition(v);
    if Contains(html, RelatedMark) then RelatedExists
    else if blk == "" then NoRelated
    else match InsertionPoint(html, pos)
      case None => NoInsertPlace
      case Some(i) => Patched(TagBody(Splice(html, i, PlacedBlock(blk, pos)), v))
  }

  /**
   * `patch_image_page(p, variant)`: `pages` are the image pages of the
   * page's category, `exclude` is the page's own name, and `shuffled` is the
   * shuffle the random source produced for `build_related_block`.
   */
  method PatchImagePage(html: string, v: Variant, pages: seq<ImagePage>, exclude: string,
                        kmin: int, kmax: int, shuffled: seq<ImagePage>) returns (r: ImageOutcome)
    requires multiset(shuffled) == multiset(Excluding(pages, exclude))
    ensures r == ImagePatched(html, v, RelatedBlock(shuffled, kmin, kmax))
  {
    if Contains(html, RelatedMark) {
      return RelatedExists;
    }
    var blk := BuildRelated(pages, exclude, kmin, kmax, shuffled);
    if blk == "" {
      return NoRelated;
    }
    var html2, ok := InsertBlock(html, blk, ImagePosition(v));
    if ok {
      r := Patched(TagBody(html2, v));
    } else {
      r := NoInsertPlace;
    }
  }

  /**
   * The outcomes of `patch_image_page`: "exists" exactly at the marker,
   * "no-related" exactly when `k` is 0, "no-insert-point" exactly when the
   * block finds no place.
   */
  lemma ImagePatchedOutcomes(html: string, v: Variant, shuffled: seq<ImagePage>, kmin: int, kmax: int)
    ensures var r := ImagePatched(html, v, RelatedBlock(shuffled, kmin, kmax));
      (r == RelatedExists <==> Contains(html, RelatedMark)) &&
      (r == NoRelated <==> !Contains(html, RelatedMark) && RelatedCount(kmin, kmax, |shuffled|) == 0) &&
      (r == NoInsertPlace <==>
         !Contains(html, RelatedMark) && RelatedCount(kmin, kmax, |shuffled|) != 0 && InsertionPoint(html, ImagePosition(v)).None?)
  {
  }

  lemma ImagePatchedShape(html: string, v: Variant, blk: string)
    requires ImagePatched(html, v, blk).Patched?
    ensures InsertionPoint(html, ImagePosition(v)).Some? && ImagePatched(html, v, blk).html ==
      TagBody(Splice(html, InsertionPoint(html, ImagePosition(v)).value, PlacedBlock(blk, ImagePosition(v))), v)
  {
  }

  /** An image page patched once reports "exists" on every later run. */
  lemma ImagePatchIdempotent(html: string, v: Variant, shuffled: seq<ImagePage>, kmin: int, kmax: int,
                             v2: Variant, blk2: string)
    requires ImagePatched(html, v, RelatedBlock(shuffled, kmin, kmax)).Patched?
    ensures ImagePatched(ImagePatched(html, v, RelatedBlock(shuffled, kmin, kmax)).html, v2, blk2) == RelatedExists
  {
    var blk := RelatedBlock(shuffled, kmin, kmax);
    ImagePatchedShape(html, v, blk);
    var w := RelatedMark;
    MarksPlain(w);
    MarkSurvivesPatch(html, InsertionPoint(html, ImagePosition(v)).value, blk, ImagePosition(v), v, w);
  }
}
