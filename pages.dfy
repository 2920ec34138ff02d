/**
 * Page classification and layout variant of site_enhance_all.py. A page is
 * given by the parts of its path relative to the site root
 * (`p.relative_to(ROOT).parts`); its parent directory must be one of the
 * configured category directories, compared case-insensitively.
 */
module Pages {
  import opened Text

  /** `[c.lower() for c in dirs]`. */
  function LowerAll(dirs: seq<string>): (r: seq<string>)
    ensures |r| == |dirs|
    ensures forall i :: 0 <= i < |dirs| ==> r[i] == Lower(dirs[i])
  {
    seq(|dirs|, i requires 0 <= i < |dirs| => Lower(dirs[i]))
  }

  predicate StartsWith(s: string, p: string)
  {
    |p| <= |s| && s[..|p|] == p
  }

  predicate EndsWith(s: string, p: string)
  {
    |p| <= |s| && s[|s| - |p|..] == p
  }

  /** The page's parent directory is a category directory, ignoring case. */
  predicate InCategoryDir(parts: seq<string>, dirs: seq<string>)
  {
    |parts| >= 2 && Lower(parts[|parts| - 2]) in LowerAll(dirs)
  }

  /** `p.name.lower()`: the lower-cased last part. */
  function LowerName(parts: seq<string>): string
    requires |parts| >= 1
  {
    Lower(parts[|parts| - 1])
  }

  /** `is_category_page`: a listing page (`page...` or `index.html`) in a category directory. */
  predicate IsCategoryPage(parts: seq<string>, dirs: seq<string>)
  {
    InCategoryDir(parts, dirs) &&
    (StartsWith(LowerName(parts), "page") || LowerName(parts) == "index.html")
  }

  /** `is_image_page`: any other `.html` / `.htm` file in a category directory. */
  predicate IsImagePage(parts: seq<string>, dirs: seq<string>)
  {
    InCategoryDir(parts, dirs) &&
    var n := LowerName(parts);
    (EndsWith(n, ".html") || EndsWith(n, ".htm")) && !StartsWith(n, "page") && n != "index.html"
  }

  /**
   * No page is both a category page and an image page, and each needs at
   * least two path parts and a parent directory among the categories.
   */
  lemma ClassifiersDisjoint(parts: seq<string>, dirs: seq<string>)
    ensures !(IsCategoryPage(parts, dirs) && IsImagePage(parts, dirs))
    ensures IsCategoryPage(parts, dirs) || IsImagePage(parts, dirs) ==>
      |parts| >= 2 && exists d :: d in dirs && Lower(d) == Lower(parts[|parts| - 2])
  {
    if InCategoryDir(parts, dirs) {
      var i :| 0 <= i < |dirs| && LowerAll(dirs)[i] == Lower(parts[|parts| - 2]);
      assert dirs[i] in dirs;
    }
  }

  /** Classification ignores the case of the path: lower-casing every part changes nothing. */
  lemma ClassifiersIgnoreCase(parts: seq<string>, dirs: seq<string>)
    ensures IsCategoryPage(LowerAll(parts), dirs) == IsCategoryPage(parts, dirs)
    ensures IsImagePage(LowerAll(parts), dirs) == IsImagePage(parts, dirs)
  {
    if |parts| >= 2 {
      LowerIdempotent(parts[|parts| - 1]);
      LowerIdempotent(parts[|parts| - 2]);
    }
  }

  /** The lower-cased names the examples below rely on. */
  lemma LowerExamples()
    ensures LowerAll(["bedroom", "dark"]) == ["bedroom", "dark"]
    ensures Lower("Bedroom") == "bedroom" && Lower("INDEX.HTML") == "index.html"
    ensures Lower("bedroom") == "bedroom" && Lower("dark") == "dark" && Lower("misc") == "misc"
    ensures Lower("cozy-01.html") == "cozy-01.html" && Lower("page2.html") == "page2.html"
    ensures Lower("index.html") == "index.html" && Lower("page1.html") == "page1.html"
  {
    assert Lower("bedroom") == "bedroom";
    assert Lower("dark") == "dark";
  }

  /** Concrete instances of the category-page rule. */
  lemma CategoryExamples()
    ensures IsCategoryPage(["Bedroom", "page2.html"], ["bedroom", "dark"])
    ensures IsCategoryPage(["dark", "INDEX.HTML"], ["bedroom", "dark"])
    ensures !IsCategoryPage(["page1.html"], ["bedroom", "dark"])
    ensures !IsCategoryPage(["misc", "index.html"], ["bedroom", "dark"])
  {
    LowerExamples();
  }

  /** Concrete instances of the image-page rule. */
  lemma ImageExamples()
    ensures IsImagePage(["bedroom", "cozy-01.html"], ["bedroom", "dark"])
    ensures !IsImagePage(["bedroom", "index.html"], ["bedroom", "dark"])
    ensures !IsImagePage(["dark", "page2.html"], ["bedroom", "dark"])
    ensures !IsImagePage(["misc", "cozy-01.html"], ["bedroom", "dark"])
  {
    LowerExamples();
    assert "cozy-01.html"[..4] == "cozy";
    assert "cozy-01.html"[7..] == ".html";
  }

  /** The three layouts of the structure patch. */
  datatype Variant = A | B | C

  /** `"A"`, `"B"` or `"C"`. */
  function VariantName(v: Variant): string
  {
    match v
    case A => "A"
    case B => "B"
    case C => "C"
  }

  /**
   * `pick_variant`: the configured variant when it is "A", "B" or "C",
   * otherwise a random one; the draw is the oracle `draw`. The variant
   * picked is named by the configuration exactly when the configuration
   * names a variant.
   */
  function PickVariant(configured: string, draw: nat): (v: Variant)
    ensures (configured == "A" || configured == "B" || configured == "C") <==> VariantName(v) == configured
  {
    if configured == "A" then A
    else if configured == "B" then B
    else if configured == "C" then C
    else [A, B, C][draw % 3]
  }

  /** Any other configured value ("auto" by default) leaves every variant possible. */
  lemma PickVariantAutoReachesAll(configured: string, v: Variant)
    requires configured != "A" && configured != "B" && configured != "C"
    ensures exists draw: nat :: PickVariant(configured, draw) == v
  {
    var d: nat := match v case A => 0 case B => 1 case C => 2;
    assert PickVariant(configured, d) == v;
  }
}
