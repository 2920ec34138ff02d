/**
 * `ensure_tags_pages` of site_enhance_all.py: for each configured
 * collection it gathers, over the category directories in order, the image
 * pages whose lower-cased name contains one of the collection's include
 * words, and splits the resulting thumbnails into pages of 30. Page `i`
 * (from 0) is written to `slug.html` when `i == 0` and to `slug_{i+1}.html`
 * otherwise, and links to `slug_{i+2}.html` when a further page exists.
 */
module Tags {
  import opened Wrappers
  import opened Text
  import opened Pages
  import opened Related

  /** One entry of the `collections` configuration. */
  datatype Collection = Collection(slug: string, title: string, includes: seq<string>)

  /** `any(k in name for k in inc)`, with `name` and the words of `inc` lower-cased. */
  predicate InCollection(p: ImagePage, inc: seq<string>)
  {
    exists k :: k in inc && Contains(Lower(Name(p)), k)
  }

  /** The pages of several directories, one directory after the other. */
  function Flatten(dirs: seq<seq<ImagePage>>): seq<ImagePage>
  {
    if dirs == [] then [] else Flatten(dirs[..|dirs| - 1]) + dirs[|dirs| - 1]
  }

  /** The `(href, src)` pairs of the pages of `ps` that belong to the collection, in order. */
  function Matches(ps: seq<ImagePage>, inc: seq<string>): (r: seq<Thumb>)
    ensures |r| <= |ps|
  {
    if ps == [] then []
    else Matches(ps[..|ps| - 1], inc) + (if InCollection(ps[|ps| - 1], inc) then [ThumbOf(ps[|ps| - 1])] else [])
  }

  /** A thumbnail is gathered exactly when some page of the collection shows it. */
  lemma {:induction false} MatchesIff(ps: seq<ImagePage>, inc: seq<string>, t: Thumb)
    ensures t in Matches(ps, inc) <==> exists p :: p in ps && InCollection(p, inc) && ThumbOf(p) == t
  {
    if ps != [] {
      var init := ps[..|ps| - 1];
      var last := ps[|ps| - 1];
      MatchesIff(init, inc, t);
      assert ps == init + [last];
      if t in Matches(ps, inc) && t !in Matches(init, inc) {
        assert last in ps;
      }
      if p :| p in ps && InCollection(p, inc) && ThumbOf(p) == t {
        if p != last {
          assert p in init;
        }
      }
    }
  }

  lemma MatchesStep(before: seq<ImagePage>, dir: seq<ImagePage>, j: nat, inc: seq<string>)
    requires j < |dir|
    ensures Matches(before + dir[..j + 1], inc) ==
      Matches(before + dir[..j], inc) + (if InCollection(dir[j], inc) then [ThumbOf(dir[j])] else [])
  {
    var s := before + dir[..j + 1];
    assert s[..|s| - 1] == before + dir[..j];
  }

  lemma FlattenStep(dirs: seq<seq<ImagePage>>, c: nat)
    requires c < |dirs|
    ensures Flatten(dirs[..c + 1]) == Flatten(dirs[..c]) + dirs[c]
  {
    assert dirs[..c + 1][..c] == dirs[..c];
  }

  /**
   * The gathering loops of `ensure_tags_pages` for one collection:
   * `byDir[c]` lists the image pages of the c-th category directory, and
   * the include words are lower-cased first.
   */
  method CollectMatches(byDir: seq<seq<ImagePage>>, includes: seq<string>) returns (matches: seq<Thumb>)
    ensures matches == Matches(Flatten(byDir), LowerAll(includes))
  {
    var inc := LowerAll(includes);
    matches := [];
    for c := 0 to |byDir|
      invariant matches == Matches(Flatten(byDir[..c]), inc)
    {
      var dir := byDir[c];
      var before := Flatten(byDir[..c]);
      assert before + dir[..0] == before;
      for j := 0 to |dir|
        invariant matches == Matches(before + dir[..j], inc)
      {
        MatchesStep(before, dir, j, inc);
        if InCollection(dir[j], inc) {
          matches := matches + [ThumbOf(dir[j])];
        }
      }
      assert dir[..|dir|] == dir;
      FlattenStep(byDir, c);
    }
    assert byDir[..|byDir|] == byDir;
  }

  const PerPage := 30

  /**
   * `max(1, math.ceil(n / per))`: the fewest pages, and at least one, that
   * hold `n` items at 30 a page.
   */
  function PageCount(n: nat): (r: nat)
    ensures r >= 1 && n <= r * PerPage
    ensures r == 1 || (r - 1) * PerPage < n
  {
    if n == 0 then 1 else (n + PerPage - 1) / PerPage
  }

  /** Python's `s[a:b]` for `0 <= a <= b`: clamped to the end of `s`. */
  function PySlice<T>(s: seq<T>, a: nat, b: nat): (r: seq<T>)
    requires a <= b
    ensures |r| <= b - a
    ensures a <= |s| ==> r == s[a..Min(b, |s|)]
    ensures |s| <= a ==> r == []
  {
    s[Min(a, |s|)..Min(b, |s|)]
  }

  /** The output file of page `i`: `slug.html` for the first, `slug_{i+1}.html` after it. */
  function FileName(slug: string, i: nat): string
  {
    if i == 0 then slug + ".html" else slug + "_" + NatToString(i + 1) + ".html"
  }

  /** The "Next" link of page `i`, `/tags/slug_{i+2}.html`: it leads to the file of page `i + 1`. */
  function NextHref(slug: string, i: nat): (r: string)
    ensures r == "/tags/" + FileName(slug, i + 1)
  {
    var d := NatToString(i + 2);
    assert FileName(slug, i + 1) == slug + "_" + d + ".html";
    "/tags/" + slug + "_" + d + ".html"
  }

  /** One tag page: where it is written, the thumbnails it shows, and its "Next" link if any. */
  datatype TagPage = TagPage(file: string, items: seq<Thumb>, next: Option<string>)

  /** Page `i` of `count` pages over `matches`. */
  function PageAt(slug: string, matches: seq<Thumb>, count: nat, i: nat): TagPage
  {
    TagPage(FileName(slug, i), PySlice(matches, i * PerPage, (i + 1) * PerPage),
            if i + 1 < count then Some(NextHref(slug, i)) else None)
  }

  /** The pages `ensure_tags_pages` writes for one collection. */
  function TagPages(slug: string, matches: seq<Thumb>): (r: seq<TagPage>)
    ensures |r| == PageCount(|matches|)
  {
    seq(PageCount(|matches|), i requires 0 <= i => PageAt(slug, matches, PageCount(|matches|), i))
  }

  /** The page loop of `ensure_tags_pages`. */
  method Paginate(slug: string, matches: seq<Thumb>) returns (pages: seq<TagPage>)
    ensures pages == TagPages(slug, matches)
  {
    var count := PageCount(|matches|);
    pages := [];
    for i := 0 to count
      invariant |pages| == i
      invariant forall j :: 0 <= j < i ==> pages[j] == PageAt(slug, matches, count, j)
    {
      var cur := PySlice(matches, i * PerPage, (i + 1) * PerPage);
      var next: Option<string> := None;
      if i + 1 < count {
        next := Some(NextHref(slug, i));
      }
      assert next == PageAt(slug, matches, count, i).next;
      var page := TagPage(FileName(slug, i), cur, next);
      assert page == PageAt(slug, matches, count, i);
      pages := pages + [page];
    }
  }

  /** All thumbnails of the pages, page after page. */
  function AllItems(pages: seq<TagPage>): seq<Thumb>
  {
    if pages == [] then [] else AllItems(pages[..|pages| - 1]) + pages[|pages| - 1].items
  }

  /** The first `j` pages hold exactly the first `30 j` matches (or all of them). */
  lemma {:induction false} PrefixItems(slug: string, matches: seq<Thumb>, j: nat)
    requires j <= PageCount(|matches|)
    ensures AllItems(TagPages(slug, matches)[..j]) == matches[..Min(j * PerPage, |matches|)]
  {
    var pages := TagPages(slug, matches);
    if j > 0 {
      PrefixItems(slug, matches, j - 1);
      assert pages[..j][..j - 1] == pages[..j - 1];
      var a := Min((j - 1) * PerPage, |matches|);
      var b := Min(j * PerPage, |matches|);
      assert pages[j - 1].items == matches[a..b];
      assert matches[..a] + matches[a..b] == matches[..b];
    }
  }

  /** The pages split the matches: put back together they are the matches, in order. */
  lemma PagesCoverMatches(slug: string, matches: seq<Thumb>)
    ensures AllItems(TagPages(slug, matches)) == matches
  {
    var pages := TagPages(slug, matches);
    PrefixItems(slug, matches, |pages|);
    assert pages[..|pages|] == pages;
    assert matches[..|matches|] == matches;
  }

  /**
   * At most 30 items a page, exactly 30 on every page but the last, and the
   * last page is empty only when there are no matches at all.
   */
  lemma PageSizes(slug: string, matches: seq<Thumb>)
    ensures var pages := TagPages(slug, matches);
      (forall i :: 0 <= i < |pages| ==> |pages[i].items| <= PerPage) &&
      (forall i :: 0 <= i < |pages| - 1 ==> |pages[i].items| == PerPage) &&
      (|matches| > 0 <==> |pages[|pages| - 1].items| > 0)
  {
    var pages := TagPages(slug, matches);
    forall i | 0 <= i < |pages| - 1 ensures |pages[i].items| == PerPage {
      assert (i + 1) * PerPage <= (|pages| - 1) * PerPage;
    }
  }

  /** Exactly the last page has no "Next" link, and each link leads to the file of the page after it. */
  lemma NextLinks(slug: string, matches: seq<Thumb>)
    ensures var pages := TagPages(slug, matches);
      (forall i :: 0 <= i < |pages| ==> (pages[i].next.None? <==> i == |pages| - 1)) &&
      (forall i :: 0 <= i < |pages| - 1 ==> pages[i].next == Some("/tags/" + pages[i + 1].file))
  {
    var pages := TagPages(slug, matches);
    forall i | 0 <= i < |pages| - 1 ensures pages[i].next == Some("/tags/" + pages[i + 1].file) {
      assert pages[i + 1].file == FileName(slug, i + 1);
    }
  }

  /** Different pages of one collection are written to different files. */
  lemma FileNamesDistinct(slug: string, i: nat, j: nat)
    requires i != j
    ensures FileName(slug, i) != FileName(slug, j)
  {
    if i == 0 || j == 0 {
      var k := if i == 0 then j else i;
      var n := slug + "_" + NatToString(k + 1) + ".html";
      assert n[|slug|] == '_';
      assert (slug + ".html")[|slug|] == '.';
    } else {
      NatToStringInjective(i + 1, j + 1);
      if FileName(slug, i) == FileName(slug, j) {
        FrameInjective(slug + "_", NatToString(i + 1), NatToString(j + 1), ".html");
      }
    }
  }
}
