# site_enhance_all.py, modelled in Dafny

`site_enhance_all.py` is a one-shot patch script for a static image gallery
site. It walks the site's HTML pages and:

- expands spintax templates (`{a|b|c}`) into category descriptions;
- classifies pages as category listings or image pages by their path;
- inserts a "You may also like" block of related thumbnails into image pages;
- inserts a "Top Collections" block of tag links into category pages, with
  one of three layouts (variant A, B or C);
- writes paginated tag pages for each configured collection.

It marks everything it inserts with a `data-nb-*` attribute. The category
description, the collections block and the related block are each skipped on
a page that already carries their marker, so a second run leaves those pages
alone. The tag pages carry no marker and are written afresh on every run.

This project models the decision logic of the script as pure functions over
strings and sequences. The loops of the script (`spintax`, `after_grid`, the
thumbnail loop of `build_related_block`, the gathering and page loops of
`ensure_tags_pages`) appear as methods with loop invariants, each proved
equal to the function it computes. The lemmas then prove what the script
promises:

- spintax terminates and leaves no group;
- the two page classifiers are exclusive;
- `insert_block` can be undone, and `0` falls through Python's `or`;
- the sidebar layout rewrites every `class="nb-box"` of its block;
- the related count stays in its bounds;
- the tag pages cover the matches exactly, with correct "Next" links;
- the three marker-guarded patches are idempotent.

Files, in dependency order:

| file | module | what it holds |
|---|---|---|
| wrappers.dfy | Wrappers | `Option` |
| text.dfy | Text | ASCII `lower`, `find`/`in`, `split`, `replace` (all and first), decimal rendering |
| scan.dfy | HtmlScan | the script's regular expressions as scanners, each tied to a declarative description |
| insert.dfy | Insert | `insert_block` and its helpers `before_grid`, `after_grid` and `find_after` |
| pages.dfy | Pages | `is_category_page`, `is_image_page`, `pick_variant` |
| related.dfy | Related | `build_related_block` |
| tags.dfy | Tags | the gathering and pagination of `ensure_tags_pages` |
| patch.dfy | Patch | `insert_cat_desc`, `build_collections_links`, `patch_category_page`, `patch_image_page` |
| spintax.dfy | Spintax | `spintax` |

Randomness is an oracle parameter, and every property holds for all choices:

- `random.choice` in `spintax`: the t-th replacement takes alternative `pick(t) % n`.
- `random.shuffle` in `build_related_block`: any permutation of the filtered pages, required as equal multisets.
- `random.choice` in `pick_variant`: a natural-number draw, taken modulo 3.

File contents come in as parameters:

- a page's html is a `string`;
- a category directory's image pages are a `seq<ImagePage>`;
- what a patch would write is its result.

Behaviour of the code worth knowing, kept by the model:

- **Nested spintax.** `spintax` loops on the innermost group `\{([^{}]+)\}`
  until none is left, so nested groups resolve from the inside out. Unbalanced braces and literal
  `{}` remain in the output: what is proved is that no *group* is left, not
  that no brace is.
- **Case of `<body`.** The variant attribute is added by a case-sensitive
  `replace("<body", …, 1)`. A page whose tag reads `<BODY` gets its block but
  no attribute. `Patch.TagBody` keeps this.
- **What `<p[^>]*>` matches.** The pattern also matches `<pre>` or `<param>`,
  and `<main[^>]*>` also matches `<mainx>`. The scanners match the literal
  prefix followed by anything up to `>`, as the regular expressions do.
- **Unknown positions.** Any position that is neither `"above"` nor
  `"sidebar"` takes the `below` branch. The script only ever passes the three
  values from its variant tables, so `Insert.Position` has three cases.
- **Default related count.** With the shipped defaults (`min_related_thumbs`
  5, `max_related_thumbs` 8), `k` is `min(5, n)`.
- **Below splices inside a tag.** `after_grid` returns the end of the last
  `<img…src=` match, which lies between `src=` and the attribute value, so
  the below layout puts the block inside that `<img` tag, before its `>`.
  `Insert.BelowInsideImgTag` states this.

## Model

| member | source | states |
|---|---|---|
| Text.LowerIdempotent | site_enhance_all.py:162-164 | lower-casing twice is lower-casing once |
| Text.FindSpec | site_enhance_all.py:169 | what `find` returns is the leftmost occurrence at or after the start; None means there is no occurrence at all |
| Text.Find | site_enhance_all.py:169 | an index found is at or after the start and `p` occurs there |
| Text.ContainsAt | site_enhance_all.py:169 | `p in s` holds as soon as `p` occurs at some index |
| Text.ContainsInFrame | site_enhance_all.py:278 | text that occurs in the middle piece occurs in the concatenation |
| Text.ContainsAfterInsert | site_enhance_all.py:339 | inserting text keeps every occurrence of `p` when `p` lacks the character before the insertion point |
| Text.CountConcat | site_enhance_all.py:156 | the count of a character is additive over concatenation |
| Text.Split | site_enhance_all.py:155 | `split("\|")`: at least one piece, the pieces joined by `\|` give the text back, no piece holds `\|`, every character comes from the input |
| Text.ReplaceAllAbsent | site_enhance_all.py:274 | `replace` leaves text without the pattern unchanged |
| Text.ReplaceAll | site_enhance_all.py:274 | replacing a pattern by itself changes nothing; a replacement no shorter than the pattern never shortens the text (what it does to the box class is `Insert.SidebarMarksBox`) |
| Text.ReplaceFirst | site_enhance_all.py:339 | `replace(pat, rep, 1)`: without `pat` the text is unchanged; with it the length changes by `len(rep) - len(pat)` |
| Text.ReplaceFirstExtends | site_enhance_all.py:339 | replacing the first `pat` by `pat + x` inserts `x` right after the first occurrence; without one nothing changes |
| Text.NatToStringRoundTrip | site_enhance_all.py:315 | the decimal rendering of `{i+2}` parses back to the number |
| Text.NatToStringInjective | site_enhance_all.py:323 | distinct numbers render as distinct digit strings |
| HtmlScan.ImgOpenIff | site_enhance_all.py:259 | the `<img` head is exactly the case-insensitive match of the literal |
| HtmlScan.SrcOpenIff | site_enhance_all.py:259 | the `src=` tail is exactly the case-insensitive match of the literal |
| HtmlScan.QuotedSrcOpenIff | site_enhance_all.py:222 | `src=` followed by `"` is exactly the case-insensitive match of `src="` |
| HtmlScan.NextCharFirst | site_enhance_all.py:259 | the scan for `>` (or `"`) stops at the first one |
| HtmlScan.LastAttrSpec | site_enhance_all.py:259 | greedy `[^>]+`: the attribute position found is the greatest in range; none found means none in range |
| HtmlScan.ImgMatchAt | site_enhance_all.py:259 | a position found is a match of `<img[^>]+src=` at `i`: `<img`, one or more non-`>` characters, then `src=` |
| HtmlScan.ImgMatchNoGt | site_enhance_all.py:259 | a match of `<img[^>]+src=` holds no `>` from `<img` to the end of `src=` |
| HtmlScan.ImgMatchAtSpec | site_enhance_all.py:259 | the match found at `i` is the greatest attribute position of all matches at `i`; None means no match starts at `i` |
| HtmlScan.FindImg | site_enhance_all.py:259 | a match found starts at or after the search start, within the text, and is the match at its start |
| HtmlScan.FindImgSpec | site_enhance_all.py:259 | `re.search`: no match starts between the search start and the match found; None means no match at or after the start |
| HtmlScan.FirstImgSrcValue | site_enhance_all.py:221-223 | `""` exactly when no `<img…src="…"` matches. Otherwise the value is non-empty, holds no `"`, and is the text between the leftmost match's `src="` and the next `"` |
| HtmlScan.OpenTagAtMatches | site_enhance_all.py:266-268 | a tag end found is a match of `<tag[^>]*>` |
| HtmlScan.OpenTagAtSpec | site_enhance_all.py:266-268 | every match of `<tag[^>]*>` at `i` ends where the one found ends (at the first `>`) |
| HtmlScan.FindOpenTag | site_enhance_all.py:267 | an opening tag found starts at or after the search start and is the tag matched at its start |
| HtmlScan.FindOpenTagSpec | site_enhance_all.py:267 | leftmost: no opening tag starts before the one found; none found means none at all |
| HtmlScan.FindAfter | site_enhance_all.py:266-268 | the end of the tag follows a `>`, so it is never 0 |
| HtmlScan.FindAfterSpec | site_enhance_all.py:266-268 | None exactly when no `<tag[^>]*>` occurs; otherwise the end of the leftmost one |
| HtmlScan.ElementAt | site_enhance_all.py:175 | an element found has an opening tag and ends with the closing tag |
| HtmlScan.ElementAtSpec | site_enhance_all.py:175-178 | lazy `.*?` under `re.S`: the element closes at the first closing tag after its opening tag; None exactly without one |
| HtmlScan.FindElement | site_enhance_all.py:175-178 | an element found starts at or after the search start and is the element matched at its start |
| HtmlScan.FindElementSpec | site_enhance_all.py:175-178 | the element found is the leftmost; none found means none at or after the start |
| HtmlScan.FindElementFirst | site_enhance_all.py:175-178 | `re.search` from the start of the text finds exactly the leftmost element: the one found is an element and none starts before it, and that element is the one found |
| HtmlScan.ElementWithinText | site_enhance_all.py:175-178 | a matched element lies within the text, starts with the opening and ends with the closing tag |
| HtmlScan.MentionsGalleryIff | site_enhance_all.py:181 | the keyword search succeeds exactly when `browse`, `gallery`, `collection` or `images` occurs in any case |
| Insert.BeforeGrid | site_enhance_all.py:258-260 | the start of the leftmost `<img…src=` match; None exactly when there is no match |
| Insert.LastImg | site_enhance_all.py:262-264 | the match the `finditer` loop keeps ends, with its `src=`, within the text |
| Insert.LastImgSpec | site_enhance_all.py:261-265 | the `finditer` loop keeps nothing exactly when nothing matches; otherwise it keeps a match after which nothing matches |
| Insert.LastImgSrcEnd | site_enhance_all.py:261-265 | `after_grid` returns an index within the text past the four characters of `src=` |
| Insert.LastImgNoneIff | site_enhance_all.py:262-264 | the loop ends with `last = None` exactly when there was no earlier match and none is found |
| Insert.LastImgIsMatch | site_enhance_all.py:263-264 | what the loop keeps is a match |
| Insert.LastImgIsLast | site_enhance_all.py:263-264 | no match is found after the one the loop keeps |
| Insert.LastImgSrcEndSpec | site_enhance_all.py:261-265 | `after_grid` is None exactly when there is no match; otherwise it is the end of a match's `src=`, with no match at or after it |
| Insert.LastMatch | site_enhance_all.py:262-264 | the imperative `finditer` loop computes the last match |
| Insert.AfterGrid | site_enhance_all.py:261-265 | the imperative `after_grid` returns `last.end()` of that last match |
| Insert.InsertionPoint | site_enhance_all.py:269-277 | any index chosen is inside the text and not 0 |
| Insert.SpliceRemovable | site_enhance_all.py:278 | the splice adds `\|block\| + 2` characters; taking `"\n" + block + "\n"` out again gives the original |
| Insert.SpliceKeeps | site_enhance_all.py:278 | text in the block occurs in the spliced page |
| Insert.InsertBlock | site_enhance_all.py:256-279 | `ok` exactly when the block is non-empty and an index is found. Without `ok` the html comes back unchanged; with it, the html with the (sidebar-adapted) block spliced in at the index |
| Insert.InsertionPointLandmark | site_enhance_all.py:269-276 | the index ends the leftmost `<main…>` or `<body…>` tag (always `<body…>` in the sidebar layout), or it is the start of the first `<img…src=` match with none before it (above), or it is right after the `src=` of an `<img…src=` match with no match starting at or after it (below) |
| Insert.AboveSkipsOffsetZero | site_enhance_all.py:270 | the `or` quirk: an `<img` match at offset 0 falls through to `<main>`, then `<body>` |
| Insert.BelowInsideImgTag | site_enhance_all.py:261-276 | with an `<img…src=` match, the below layout inserts at `after_grid`, inside the last `<img` tag: no `>` lies between the tag start and the index |
| Insert.InsertionPointNoneIff | site_enhance_all.py:269-277 | there is no insertion point, per layout, exactly when each fallback fails (an above-grid match at 0 counts as failing) |
| Insert.SidebarKeepsText | site_enhance_all.py:274 | the sidebar class rewrite keeps every occurrence of text without `"` |
| Insert.SidebarKeepsPrefix | site_enhance_all.py:274 | the same for text at the very start of the block |
| Insert.SidebarKeepsInClass | site_enhance_all.py:274 | the same for text inside a rewritten `class="nb-box"` |
| Insert.ReplaceKeepsHead | site_enhance_all.py:274 | when every replacement keeps its leading part, text within that part stays |
| Insert.PlacedBlockKeepsMarker | site_enhance_all.py:271-274 | a marker (no `"` in it) in the block survives placement in every layout |
| Insert.SidebarRewritesBox | site_enhance_all.py:274 | a block holding `class="nb-box"` holds `class="nb-box nb-sidebar"` after the sidebar rewrite |
| Insert.SidebarFrontUnchanged | site_enhance_all.py:274 | text without `c` at the front of the rewritten block was at the front of the block, since every rewritten class starts with `c` |
| Insert.SidebarLeavesNoBox | site_enhance_all.py:274 | after the sidebar rewrite no `class="nb-box"` occurs at any index |
| Insert.SidebarMarksBox | site_enhance_all.py:271-274 | the sidebar layout rewrites the box: with `class="nb-box"` in the block, the placed block has `class="nb-box nb-sidebar"`, and no `class="nb-box"` is left |
| Pages.ClassifiersDisjoint | site_enhance_all.py:159-219 | no page is both a category page and an image page; each needs two path parts and a parent among the category dirs, ignoring case |
| Pages.ClassifiersIgnoreCase | site_enhance_all.py:159-219 | lower-casing the path does not change either classification |
| Pages.CategoryExamples | site_enhance_all.py:159-165 | `page…` and `INDEX.HTML` in a category dir are category pages; too short a path or a foreign dir is not |
| Pages.ImageExamples | site_enhance_all.py:213-219 | an `.html` file in a category dir is an image page, but not `index.html`, not `page…` and not in a foreign dir |
| Pages.PickVariant | site_enhance_all.py:208-211 | the configured value is taken as it is exactly when it is `A`, `B` or `C`: the variant chosen is named by the setting exactly then |
| Pages.PickVariantAutoReachesAll | site_enhance_all.py:211 | any other setting leaves every variant possible |
| Related.Excluding | site_enhance_all.py:236 | the kept pages are the pages not named `exclude`, each as often as in the input, and excluded pages not at all |
| Related.RelatedCount | site_enhance_all.py:239 | `k` is at most each of `max(kmin, 1)`, `kmax` and `len(pages)`, and equals one of them |
| Related.RelatedCountBounds | site_enhance_all.py:239-240 | `k <= len`, `k <= kmax`, `k >= 1` when `kmax >= 1` and a page is left; `k == 0` exactly when `kmax == 0`, or there are no pages and `kmax >= 0` |
| Related.Selected | site_enhance_all.py:242 | `pages[:k]`: a prefix of the shuffle, of length exactly `k` when `k >= 0` |
| Related.RelatedBlock | site_enhance_all.py:234-254 | the block is empty exactly when `k == 0`; a non-empty block carries `data-nb-related` |
| Related.DefaultCount | site_enhance_all.py:38-39 | with the shipped defaults `k = min(5, n)` |
| Related.ThumbList | site_enhance_all.py:242-246 | one thumbnail per selected page, in order |
| Related.BuildRelated | site_enhance_all.py:234-254 | the imperative `build_related_block` returns the block of the first `k` shuffled pages; `""` exactly when `k == 0` |
| Related.SelectedFacts | site_enhance_all.py:236-242 | no selected page has the excluded name; all come from the category; exactly `k` of them when `k >= 0`; they are the first of the shuffle |
| Related.RelatedTextMarked | site_enhance_all.py:249 | the block text carries its marker whatever the thumbnails |
| Tags.Matches | site_enhance_all.py:300-308 | never more matches than pages |
| Tags.MatchesIff | site_enhance_all.py:302-308 | a thumbnail is gathered exactly when a page of the collection shows it |
| Tags.CollectMatches | site_enhance_all.py:298-308 | the imperative gathering loops compute the matches over the directories in order, with the include words lower-cased |
| Tags.PageCount | site_enhance_all.py:309-310 | `max(1, ceil(n/30))`: at least one page, the pages hold all `n` items, and one page fewer would not |
| Tags.Paginate | site_enhance_all.py:311-325 | the imperative page loop computes exactly the tag pages |
| Tags.PrefixItems | site_enhance_all.py:311-312 | the first `j` pages hold exactly the first `30 j` matches (or all of them) |
| Tags.PagesCoverMatches | site_enhance_all.py:311-312 | the slices concatenate back to the matches, in order |
| Tags.PageSizes | site_enhance_all.py:309-312 | at most 30 items a page, exactly 30 on every page but the last; the last is empty only without matches |
| Tags.NextLinks | site_enhance_all.py:315-323 | exactly the last page has no "Next" link; each link leads to the next page's file |
| Tags.NextHref | site_enhance_all.py:315-323 | the "Next" link `/tags/slug_{i+2}.html` names the file that page `i + 1` is written to |
| Tags.FileNamesDistinct | site_enhance_all.py:323 | different pages of one collection are written to different files |
| Patch.NewDescParagraphMarked | site_enhance_all.py:173 | the new paragraph carries `data-nb-catdesc` |
| Patch.H1End | site_enhance_all.py:175-177 | the end of the leftmost `<h1…>…</h1>` element, closing at the first `</h1>`; None exactly when no h1 element occurs anywhere |
| Patch.StockParagraphIn | site_enhance_all.py:178-181 | the leftmost `<p…>…</p>` element after the h1, and only when it is shorter than 220 characters and mentions a keyword; None exactly when there is no p element or the leftmost one is not such a stock line |
| Patch.MainOrBody | site_enhance_all.py:188-189 | None exactly when neither `<main…>` nor `<body…>` occurs; the end of the leftmost `<main…>` when one occurs, else of the leftmost `<body…>`; never 0 |
| Patch.PlaceCatDesc | site_enhance_all.py:175-192 | placing a description never reports "exists"; it reports "no-insert-point" exactly when there is no h1 element and neither `<main…>` nor `<body…>` |
| Patch.InsertCatDesc | site_enhance_all.py:167-192 | "exists" exactly when the page carries `data-nb-catdesc`; whatever is written carries it |
| Patch.CatDescReplacedIff | site_enhance_all.py:175-183 | "replaced" exactly without the marker, with an h1 and a stock paragraph after it |
| Patch.ReplacedInPlace | site_enhance_all.py:180-183 | on replacement that paragraph, and nothing else, gives way to the new one |
| Patch.InsertedSplice | site_enhance_all.py:185-192 | on insertion the paragraph is spliced in at the end of the leftmost h1 element when no stock paragraph follows it; with no h1 element, at the end of the leftmost `<main…>` tag, or of the leftmost `<body…>` tag when there is no `<main…>` tag |
| Patch.CatDescNoInsertPointIff | site_enhance_all.py:188-190 | "no-insert-point" exactly without the marker, an h1, `<main>` and `<body>` |
| Patch.PlacedKeeps | site_enhance_all.py:182-192 | whatever is written contains the new paragraph |
| Patch.CatDescIdempotent | site_enhance_all.py:167-192 | a second run on the written page reports "exists" |
| Patch.TagBodyOnce | site_enhance_all.py:339 | the variant attribute goes in once, right after the first `<body` (case-sensitive); without `<body` nothing changes |
| Patch.TagBody | site_enhance_all.py:339 | the page grows by the variant attribute exactly when it contains `<body` (case-sensitive), and is otherwise unchanged in length |
| Patch.MarksPlain | site_enhance_all.py:64-70 | the two block markers hold neither `"` nor `y` |
| Patch.TagBodyKeeps | site_enhance_all.py:339 | text without `y` survives the attribute insertion |
| Patch.MarkSurvivesPatch | site_enhance_all.py:336-357 | a marker in a block survives placement, splice and the variant attribute |
| Patch.LastLinkReach | site_enhance_all.py:284 | each appended link holds its own `/tags/slug.html` target |
| Patch.CollectionLinks | site_enhance_all.py:282-284 | the joined links hold every collection's `/tags/slug.html` link |
| Patch.CollectionsBlock | site_enhance_all.py:281-291 | the collections block is never empty and carries `data-nb-collections` |
| Patch.CollectionLinksLeadToTagPages | site_enhance_all.py:284-323 | every collection's link is in the block and names the file of the first tag page written for it, whatever thumbnails that collection gathers |
| Patch.PatchCategoryPage | site_enhance_all.py:330-343 | the imperative `patch_category_page` writes exactly what `CategoryPatched` describes |
| Patch.CategoryPatched | site_enhance_all.py:330-343 | a page with `data-nb-collections` is never written; with the (never empty) block, a page is skipped exactly when it has the marker or no insertion point exists for the variant's layout |
| Patch.CategoryPatchedNoneIff | site_enhance_all.py:333-343 | a category page is skipped exactly when it has the marker or the block finds no place |
| Patch.CategoryPatchIdempotent | site_enhance_all.py:330-339 | a category page patched once is skipped by every later run, whatever the variant |
| Patch.PatchImagePage | site_enhance_all.py:345-361 | the imperative `patch_image_page` returns exactly what `ImagePatched` describes |
| Patch.ImagePatched | site_enhance_all.py:345-361 | "exists" exactly with `data-nb-related`; "no-related" exactly without it and with an empty block; "no-insert-point" exactly without it, with a block, and with no place in the variant's layout |
| Patch.ImagePatchedOutcomes | site_enhance_all.py:349-361 | "exists" exactly at the marker; "no-related" exactly when `k == 0`; "no-insert-point" exactly when no place is found |
| Patch.ImagePatchIdempotent | site_enhance_all.py:345-357 | an image page patched once reports "exists" on every later run |
| Spintax.NextBrace | site_enhance_all.py:153 | the first brace at or after the start, none skipped |
| Spintax.GroupEndAt | site_enhance_all.py:153 | a group found at `i` matches `\{([^{}]+)\}`; None means no group starts at `i` |
| Spintax.FindGroup | site_enhance_all.py:153 | `re.search`: the group found is the leftmost; None means no group at or after the start |
| Spintax.FindGroupComplete | site_enhance_all.py:153-154 | the loop stops exactly when no group is left |
| Spintax.Alternatives | site_enhance_all.py:155 | at least one alternative; joined by `\|` they are the group's content; none holds `\|` or a brace |
| Spintax.SubstituteRemovesOneBrace | site_enhance_all.py:156 | each replacement removes exactly one `{`, the termination measure |
| Spintax.Expand | site_enhance_all.py:150-157 | no group is left; text without a group comes back unchanged |
| Spintax.Spin | site_enhance_all.py:150-157 | the imperative `while` loop computes the expansion and leaves no group |
| Spintax.ExpandUnchangedIff | site_enhance_all.py:153-154 | the input comes back unchanged exactly when it holds no group |
| Spintax.EmptyBracesStayLiteral | site_enhance_all.py:153 | literal `{}` is not a group and stays |
| Spintax.StepKeepsContext | site_enhance_all.py:153-156 | when `s[i..j]` is the leftmost `{…}` group, expanding `s` is expanding `s[..i]` + the picked one of the group's `|`-split alternatives (at least one) + `s[j..]` |
| Spintax.FirstStep | site_enhance_all.py:153-156 | on `{x\|y}-{c\|d}` the first group is replaced by the chosen one of `x`, `y` |
| Spintax.SecondStep | site_enhance_all.py:153-156 | the remaining `{c\|d}` is replaced and nothing is left |
| Spintax.TwoGroupsSteps | site_enhance_all.py:150-157 | `{a\|b}-{c\|d}` expands to the choices of the first two draws |
| Spintax.TwoGroupsOutcomes | site_enhance_all.py:150-157 | `{a\|b}-{c\|d}` always yields one of `a-c`, `a-d`, `b-c`, `b-d` |

## Left out

- File I/O is not modelled: `safe_write`, the `.bak` backup, `read_text`/`write_text`, `mkdir` and the dry-run printing (site_enhance_all.py:83-93, 294-296). Each operation returns what it would write.
- Directory walks are not modelled: `os.walk`, `rglob`, `list_image_pages`, `patch_category_descriptions` and `run_structure_patch`/`main` (site_enhance_all.py:194-205, 225-232, 363-383). The model takes the listed pages as parameters.
- Configuration loading is not modelled: `load_cfg`, `load_slogans`, `load_cat_templates`, and the JSON failure path (site_enhance_all.py:72-81, 96-148). Configured values are parameters.
- `patch_home_slogan` (site_enhance_all.py:114-135) is not modelled. It lies outside the core, and its h1/body search is the scanner already modelled for `insert_cat_desc`.
- `random` itself is not modelled. `choice` and `shuffle` are oracles, as described above.
- The literal HTML and CSS of the templates (`CSS_BLOCK`, the tag-page markup) are not modelled. The related and collections blocks keep their marker line and the joined links, and the CSS text in front of them is dropped. It contains neither `class="nb-box"` nor a marker, so it does not affect the sidebar rewrite or the idempotence guards.
- Regular expressions: only the patterns the script uses are modelled, as scanners. There is no general `re` semantics.
- Case folding is ASCII only. Python's `re.I` and `str.lower()` fold all cased letters (for example `ſ` matches `s` under `re.I`), and `'İ'.lower()` is two code points, so the lowered text can be longer; the model lowers only `A`-`Z`, so its path classifiers can differ from the code's on non-ASCII directory names.
- `Tags.PageCount`: the floating-point `math.ceil(len/30)` is modelled by integer ceiling division. The two agree for every length the script can see.
- `Pages.PickVariant`: a configured `variant` that is not a string is treated like any other non-`A`/`B`/`C` value.
- `Insert.Position`: it has no fourth case for positions other than the three the script passes.
