/**
 * `insert_block` of site_enhance_all.py: choose an insertion index by
 * position, with fallbacks, and splice `"\n" + block + "\n"` in at it.
 */
module Insert {
  import opened Wrappers
  import opened Text
  import opened HtmlScan

  /** The `pos` argument: "above", "sidebar", or anything else (the default "below"). */
  datatype Position = Above | Sidebar | Below

  /** Python's `a or b` on an optional index: `None` and `0` are both false, so `0` falls through. */
  function PyOr(a: Option<nat>, b: Option<nat>): (r: Option<nat>)
    ensures r == a || r == b
    ensures r == a <== a.Some? && a.value != 0
    ensures r == b <== a.None? || a.value == 0
  {
    if a.Some? && a.value != 0 then a else b
  }

  /** `before_grid`: the start of the leftmost `<img[^>]+src=` match. */
  function BeforeGrid(s: string): (r: Option<nat>)
    ensures r.Some? ==> r.value < |s| && ImgOpen(s, r.value) && ImgMatchAt(s, r.value, false).Some?
    ensures r.Some? ==> forall i: nat :: i < r.value ==> ImgMatchAt(s, i, false).None?
    ensures r.None? <==> forall i :: ImgMatchAt(s, i, false).None?
  {
    FindImgSpec(s, 0, false);
    match FindImg(s, 0, false)
    case None => None
    case Some(m) => Some(m.start)
  }

  /**
   * The `finditer` loop of `after_grid`, from search position `pos` with
   * `last` the previous match (its `end` is where its `src=` starts, so the
   * match ends 4 further on): the last match of all.
   */
  function LastImg(s: string, pos: nat, last: Option<Span>): (r: Option<Span>)
    requires pos <= |s|
    requires last.Some? ==> last.value.end + 4 == pos
    decreases |s| - pos
    ensures r.Some? ==> r.value.end + 4 <= |s|
  {
    match FindImg(s, pos, false)
    case None => last
    case Some(m) =>
      LastImg(s, m.end + 4, Some(m))
  }

  /**
   * The loop finds nothing exactly when the search from `pos` finds nothing
   * and there was no earlier match; otherwise what it keeps is a match, and
   * the search from where that match ends finds nothing.
   */
  lemma LastImgSpec(s: string, pos: nat, last: Option<Span>)
    requires pos <= |s|
    requires last.Some? ==> last.value.end + 4 == pos && ImgMatchAt(s, last.value.start, false) == Some(last.value.end)
    ensures var r := LastImg(s, pos, last);
      (r.None? <==> last.None? && FindImg(s, pos, false).None?) &&
      (r.Some? ==> ImgMatchAt(s, r.value.start, false) == Some(r.value.end)) &&
      (r.Some? ==> FindImg(s, r.value.end + 4, false).None?)
  {
    LastImgNoneIff(s, pos, last);
    LastImgIsMatch(s, pos, last);
    if LastImg(s, pos, last).Some? {
      LastImgIsLast(s, pos, last, LastImg(s, pos, last).value);
    }
  }

  lemma {:induction false} LastImgNoneIff(s: string, pos: nat, last: Option<Span>)
    requires pos <= |s|
    requires last.Some? ==> last.value.end + 4 == pos
    decreases |s| - pos
    ensures LastImg(s, pos, last).None? <==> last.None? && FindImg(s, pos, false).None?
  {
    match FindImg(s, pos, false)
    case None =>
    case Some(m) =>
      LastImgNoneIff(s, m.end + 4, Some(m));
  }

  lemma {:induction false} LastImgIsMatch(s: string, pos: nat, last: Option<Span>)
    requires pos <= |s|
    requires last.Some? ==> last.value.end + 4 == pos && ImgMatchAt(s, last.value.start, false) == Some(last.value.end)
    decreases |s| - pos
    ensures var r := LastImg(s, pos, last); r.Some? ==> ImgMatchAt(s, r.value.start, false) == Some(r.value.end)
  {
    match FindImg(s, pos, false)
    case None =>
    case Some(m) =>
      LastImgIsMatch(s, m.end + 4, Some(m));
  }

  lemma {:induction false} LastImgIsLast(s: string, pos: nat, last: Option<Span>, r: Span)
    requires pos <= |s|
    requires last.Some? ==> last.value.end + 4 == pos
    requires LastImg(s, pos, last) == Some(r)
    decreases |s| - pos
    ensures FindImg(s, r.end + 4, false).None?
  {
    match FindImg(s, pos, false)
    case None =>
      assert last == Some(r);
    case Some(m) =>
      LastImgIsLast(s, m.end + 4, Some(m), r);
  }

  /** Once no match is left, the loop's last match is the answer. */
  lemma LastImgDone(s: string, pos: nat, last: Option<Span>)
    requires pos <= |s|
    requires last.Some? ==> last.value.end + 4 == pos
    requires FindImg(s, pos, false).None?
    ensures LastImg(s, pos, last) == last
  {
  }

  /** One round of the `finditer` loop: the next match ends further on, and the search goes on from there. */
  lemma LastImgStep(s: string, pos: nat, last: Option<Span>, m: Span, goal: Option<Span>)
    requires pos <= |s|
    requires last.Some? ==> last.value.end + 4 == pos
    requires FindImg(s, pos, false) == Some(m)
    requires LastImg(s, pos, last) == goal
    ensures pos < m.end + 4 <= |s|
    ensures LastImg(s, m.end + 4, Some(m)) == goal
  {
  }

  /** `after_grid`'s result: `last.end()`, where the last match's `src=` ends. */
  function LastImgSrcEnd(s: string): (r: Option<nat>)
    ensures r.Some? ==> 4 <= r.value <= |s|
  {
    match LastImg(s, 0, None)
    case None => None
    case Some(m) => Some(m.end + 4)
  }

  /**
   * `after_grid` yields nothing exactly when there is no match; otherwise
   * the end of a match that ends in `src=`, with no match starting after it.
   */
  lemma LastImgSrcEndSpec(s: string)
    ensures LastImgSrcEnd(s).None? <==> forall i :: ImgMatchAt(s, i, false).None?
    ensures LastImgSrcEnd(s).Some? ==> var e := LastImgSrcEnd(s).value;
      ImgMatchAt(s, LastImg(s, 0, None).value.start, false) == Some(e - 4) &&
      SrcOpen(s, e - 4) &&
      forall i :: e <= i ==> ImgMatchAt(s, i, false).None?
  {
    LastImgSpec(s, 0, None);
    var r := LastImg(s, 0, None);
    if r.Some? {
      var m := r.value;
      FindImgSpec(s, m.end + 4, false);
      assert ImgMatchAt(s, m.start, false).Some?;
    } else {
      FindImgSpec(s, 0, false);
    }
  }

  /** The `finditer` loop of `after_grid`: the last of the non-overlapping matches. */
  method LastMatch(s: string) returns (r: Option<Span>)
    ensures r == LastImg(s, 0, None)
  {
    ghost var goal := LastImg(s, 0, None);
    var last: Option<Span> := None;
    var pos: nat := 0;
    var done := false;
    while !done
      invariant pos <= |s|
      invariant last.Some? ==> last.value.end + 4 == pos
      invariant LastImg(s, pos, last) == goal
      invariant done ==> FindImg(s, pos, false).None?
      decreases |s| - pos, if done then 0 else 1
    {
      var m := FindImg(s, pos, false);
      if m.Some? {
        var mv := m.value;
        LastImgStep(s, pos, last, mv, goal);
        last := Some(mv);
        pos := mv.end + 4;
      } else {
        done := true;
      }
    }
    LastImgDone(s, pos, last);
    r := last;
  }

  /** `after_grid`: where the `src=` of the last match ends, if there is a match. */
  method AfterGrid(s: string) returns (r: Option<nat>)
    ensures r == LastImgSrcEnd(s)
  {
    var last := LastMatch(s);
    r := if last.Some? then Some(last.value.end + 4) else None;
  }

  /** The index `insert_block` splices at, or `None` when it finds no place. */
  function InsertionPoint(html: string, pos: Position): (r: Option<nat>)
    ensures r.Some? ==> 0 < r.value <= |html|
  {
    match pos
    case Above => PyOr(PyOr(BeforeGrid(html), FindAfter(html, "<main")), FindAfter(html, "<body"))
    case Sidebar => FindAfter(html, "<body")
    case Below => PyOr(PyOr(LastImgSrcEnd(html), FindAfter(html, "<main")), FindAfter(html, "<body"))
  }

  /** The class attribute of a box up to its closing quote, which the sidebar rewrite keeps in place. */
  const ClassHead := "class=\"nb-box"
  const BoxClass := ClassHead + "\""
  const SidebarBoxClass := ClassHead + " nb-sidebar\""

  /** The block as placed: in the sidebar layout every `class="nb-box"` becomes `class="nb-box nb-sidebar"`. */
  function PlacedBlock(block: string, pos: Position): string
  {
    if pos == Sidebar then ReplaceAll(block, BoxClass, SidebarBoxClass) else block
  }

  /** `html[:idx] + "\n" + block + "\n" + html[idx:]`. */
  function Splice(html: string, idx: nat, block: string): string
    requires idx <= |html|
  {
    html[..idx] + "\n" + block + "\n" + html[idx..]
  }

  /** Removing the inserted segment gives the original text back. */
  lemma SpliceRemovable(html: string, idx: nat, block: string)
    requires idx <= |html|
    ensures var out := Splice(html, idx, block);
      |out| == |html| + |block| + 2 && out[..idx] + out[idx + |block| + 2..] == html &&
      out[idx..idx + |block| + 2] == "\n" + block + "\n"
  {
    var out := Splice(html, idx, block);
    assert out[..idx] == html[..idx];
    assert out[idx + |block| + 2..] == html[idx..];
    assert html == html[..idx] + html[idx..];
  }

  /** Text that occurs in the block occurs in the page once the block is spliced in. */
  lemma SpliceKeeps(html: string, idx: nat, block: string, w: string)
    requires idx <= |html| && Contains(block, w)
    ensures Contains(Splice(html, idx, block), w)
  {
    assert Splice(html, idx, block) == (html[..idx] + "\n") + block + ("\n" + html[idx..]);
    ContainsInFrame(html[..idx] + "\n", block, "\n" + html[idx..], w);
  }

  /**
   * `insert_block(html, block, pos)`: with an empty block or no insertion
   * point it returns the html unchanged and `False`; otherwise the html with
   * the (sidebar-adapted) block spliced in at the insertion point, and `True`.
   */
  method InsertBlock(html: string, block: string, pos: Position) returns (out: string, ok: bool)
    ensures ok <==> block != "" && InsertionPoint(html, pos).Some?
    ensures !ok ==> out == html
    ensures ok ==> out == Splice(html, InsertionPoint(html, pos).value, PlacedBlock(block, pos))
  {
    if block == "" {
      return html, false;
    }
    var idx: Option<nat>;
    var b := block;
    match pos {
      case Above =>
        idx := PyOr(PyOr(BeforeGrid(html), FindAfter(html, "<main")), FindAfter(html, "<body"));
      case Sidebar =>
        idx := FindAfter(html, "<body");
        if idx.Some? {
          b := ReplaceAll(block, BoxClass, SidebarBoxClass);
        }
      case Below =>
        var grid := AfterGrid(html);
        idx := PyOr(PyOr(grid, FindAfter(html, "<main")), FindAfter(html, "<body"));
    }
    if idx.None? {
      return html, false;
    }
    out := html[..idx.value] + "\n" + b + "\n" + html[idx.value..];
    ok := true;
  }

  /**
   * Where the block lands: right after the leftmost `<main ...>` or
   * `<body ...>` tag (only `<body ...>` in the sidebar layout), right before
   * the first `<img` match (above), or right after the `src=` of the last
   * `<img` match with none after it (below).
   */
  lemma InsertionPointLandmark(html: string, pos: Position)
    requires InsertionPoint(html, pos).Some?
    ensures var i := InsertionPoint(html, pos).value;
      LeftmostTagEnd(html, i, "<main") || LeftmostTagEnd(html, i, "<body") ||
      (pos == Above && ImgOpen(html, i) && ImgMatchAt(html, i, false).Some? &&
       forall k: nat :: k < i ==> ImgMatchAt(html, k, false).None?) ||
      (pos == Below && SrcOpen(html, i - 4) && (exists k: nat :: ImgMatchAt(html, k, false) == Some(i - 4)) &&
       forall k :: i <= k ==> ImgMatchAt(html, k, false).None?)
    ensures pos == Sidebar ==> LeftmostTagEnd(html, InsertionPoint(html, pos).value, "<body")
  {
    FindAfterSpec(html, "<main");
    FindAfterSpec(html, "<body");
    match pos
    case Above =>
      AboveLandmark(html);
    case Sidebar =>
    case Below =>
      BelowLandmark(html);
  }

  /** The above layout's index: a fallback tag end, or the leftmost match. */
  lemma AboveLandmark(html: string)
    requires InsertionPoint(html, Above).Some?
    ensures var i := InsertionPoint(html, Above).value;
      FindAfter(html, "<main") == Some(i) || FindAfter(html, "<body") == Some(i) ||
      (i < |html| && ImgOpen(html, i) && ImgMatchAt(html, i, false).Some? &&
       forall k: nat :: k < i ==> ImgMatchAt(html, k, false).None?)
  {
  }

  /** The below layout's index: a fallback tag end, or the end of the last match's `src=`. */
  lemma BelowLandmark(html: string)
    requires InsertionPoint(html, Below).Some?
    ensures var i := InsertionPoint(html, Below).value;
      FindAfter(html, "<main") == Some(i) || FindAfter(html, "<body") == Some(i) ||
      (SrcOpen(html, i - 4) && (exists k: nat :: ImgMatchAt(html, k, false) == Some(i - 4)) &&
       forall k :: i <= k ==> ImgMatchAt(html, k, false).None?)
  {
    LastImgSrcEndSpec(html);
    if LastImgSrcEnd(html).Some? {
      var k := LastImg(html, 0, None).value.start;
      assert ImgMatchAt(html, k, false) == Some(LastImgSrcEnd(html).value - 4);
    }
  }

  /**
   * The `or` quirk: an `<img ... src=` at offset 0 counts as "not found",
   * so the above layout then falls back to `<main>` and `<body>`, and never
   * inserts at offset 0.
   */
  lemma AboveSkipsOffsetZero(html: string)
    requires ImgMatchAt(html, 0, false).Some?
    ensures InsertionPoint(html, Above) ==
      if FindAfter(html, "<main").Some? then FindAfter(html, "<main") else FindAfter(html, "<body")
  {
    assert BeforeGrid(html) == Some(0);
  }

  /**
   * The below layout splices inside the last `<img` tag: `after_grid` ends
   * at that tag's `src=`, before the attribute value and before the `>`
   * that closes the tag.
   */
  lemma BelowInsideImgTag(html: string)
    requires LastImgSrcEnd(html).Some?
    ensures var idx := LastImgSrcEnd(html).value;
      InsertionPoint(html, Below) == Some(idx) &&
      exists i :: 0 <= i < idx && ImgOpen(html, i) && forall k :: i <= k < idx ==> html[k] != '>'
  {
    LastImgSrcEndSpec(html);
    var idx := LastImgSrcEnd(html).value;
    var m := LastImg(html, 0, None).value;
    assert ImgMatch(html, m.start, idx - 4, false);
    ImgMatchNoGt(html, m.start, idx - 4);
  }

  /** When no insertion point exists, by layout. */
  lemma InsertionPointNoneIff(html: string, pos: Position)
    ensures InsertionPoint(html, pos).None? <==>
      FindAfter(html, "<body").None? &&
      (pos == Sidebar ||
       (FindAfter(html, "<main").None? &&
        (pos == Above ==> BeforeGrid(html).None? || BeforeGrid(html) == Some(0)) &&
        (pos == Below ==> forall i :: ImgMatchAt(html, i, false).None?)))
  {
    LastImgSrcEndSpec(html);
  }

  /** Wherever the block has `class="nb-box"`, the sidebar rewrite yields `class="nb-box nb-sidebar"`. */
  lemma {:induction false} SidebarRewritesBox(s: string, m: nat)
    requires MatchAt(s, m, BoxClass, false)
    ensures Contains(ReplaceAll(s, BoxClass, SidebarBoxClass), SidebarBoxClass)
    decreases |s|
  {
    if MatchAt(s, 0, BoxClass, false) {
      var rest := ReplaceAll(s[|BoxClass|..], BoxClass, SidebarBoxClass);
      ReplaceAllAtMatch(s, BoxClass, SidebarBoxClass);
      ContainsMiddle("", SidebarBoxClass, rest);
      assert "" + SidebarBoxClass + rest == SidebarBoxClass + rest;
    } else {
      var rest := ReplaceAll(s[1..], BoxClass, SidebarBoxClass);
      ReplaceAllSkip(s, BoxClass, SidebarBoxClass);
      MatchAtTail(s, m - 1, BoxClass);
      SidebarRewritesBox(s[1..], m - 1);
      ContainsInFrame([s[0]], rest, "", SidebarBoxClass);
      assert [s[0]] + rest + "" == [s[0]] + rest;
    }
  }

  /** No `c` in `w`. */
  predicate NoC(w: string)
  {
    forall k :: 0 <= k < |w| ==> w[k] != 'c'
  }

  /**
   * Every rewritten class starts with `c`, so text without `c` at the front
   * of the rewritten block was at the front of the block itself.
   */
  lemma {:induction false} SidebarFrontUnchanged(s: string, w: string)
    requires NoC(w)
    ensures MatchAt(ReplaceAll(s, BoxClass, SidebarBoxClass), 0, w, false) ==> MatchAt(s, 0, w, false)
    decreases |s|
  {
    var r := ReplaceAll(s, BoxClass, SidebarBoxClass);
    if w != [] && |BoxClass| <= |s| {
      if MatchAt(s, 0, BoxClass, false) {
        ReplaceAllAtMatch(s, BoxClass, SidebarBoxClass);
        assert r[0] == 'c' && w[0] != 'c';
      } else {
        ReplaceAllSkip(s, BoxClass, SidebarBoxClass);
        var rest := ReplaceAll(s[1..], BoxClass, SidebarBoxClass);
        MatchAtCons(s[0], rest, w);
        SidebarFrontUnchanged(s[1..], w[1..]);
        MatchAtCons(s[0], s[1..], w);
        assert [s[0]] + s[1..] == s;
      }
    }
  }

  /** The sidebar rewrite leaves no `class="nb-box"` behind. */
  lemma {:induction false} SidebarLeavesNoBox(s: string)
    ensures forall p: nat :: !MatchAt(ReplaceAll(s, BoxClass, SidebarBoxClass), p, BoxClass, false)
    decreases |s|
  {
    var r := ReplaceAll(s, BoxClass, SidebarBoxClass);
    if |s| < |BoxClass| {
    } else if MatchAt(s, 0, BoxClass, false) {
      var rest := ReplaceAll(s[|BoxClass|..], BoxClass, SidebarBoxClass);
      SidebarLeavesNoBox(s[|BoxClass|..]);
      ReplaceAllAtMatch(s, BoxClass, SidebarBoxClass);
      forall p: nat ensures !MatchAt(r, p, BoxClass, false) {
        if p >= |SidebarBoxClass| {
          MatchAtConcat(SidebarBoxClass, rest, p - |SidebarBoxClass|, BoxClass);
        } else if p == 0 {
          assert r[13] == ' ' && BoxClass[13] == '"';
        } else {
          assert NoC(SidebarBoxClass[1..]);
          assert r[p] == SidebarBoxClass[1..][p - 1];
          assert BoxClass[0] == 'c';
        }
      }
    } else {
      var rest := ReplaceAll(s[1..], BoxClass, SidebarBoxClass);
      SidebarLeavesNoBox(s[1..]);
      ReplaceAllSkip(s, BoxClass, SidebarBoxClass);
      forall p: nat ensures !MatchAt(r, p, BoxClass, false) {
        if p >= 1 {
          MatchAtConcat([s[0]], rest, p - 1, BoxClass);
        } else {
          assert NoC(BoxClass[1..]);
          MatchAtCons(s[0], rest, BoxClass);
          SidebarFrontUnchanged(s[1..], BoxClass[1..]);
          MatchAtCons(s[0], s[1..], BoxClass);
          assert [s[0]] + s[1..] == s;
        }
      }
    }
  }

  /**
   * The sidebar layout marks the box: a block with `class="nb-box"` comes
   * out with `class="nb-box nb-sidebar"`, and no `class="nb-box"` is left.
   */
  lemma SidebarMarksBox(b: string)
    ensures Contains(b, BoxClass) ==> Contains(PlacedBlock(b, Sidebar), SidebarBoxClass)
    ensures !Contains(PlacedBlock(b, Sidebar), BoxClass)
  {
    if Contains(b, BoxClass) {
      SidebarRewritesBox(b, Find(b, BoxClass, 0, false).value);
    }
    SidebarLeavesNoBox(b);
    FindSpec(PlacedBlock(b, Sidebar), BoxClass, 0, false);
  }

  /** No `"` in `w`. */
  predicate Unquoted(w: string)
  {
    forall k :: 0 <= k < |w| ==> w[k] != '"'
  }

  /** Where `s` holds `w`, it holds no `"` when `w` holds none. */
  lemma NoQuoteWithin(s: string, m: nat, w: string, k: nat)
    requires m + |w| <= |s| && s[m..m + |w|] == w && Unquoted(w)
    requires m <= k < m + |w|
    ensures s[k] != '"'
  {
    assert s[k] == w[k - m];
  }

  /** The sidebar rewrite keeps a `"`-free prefix of the block in place. */
  lemma {:induction false} SidebarKeepsPrefix(s: string, w: string)
    requires |w| <= |s| && s[..|w|] == w && Unquoted(w)
    ensures var r := ReplaceAll(s, BoxClass, SidebarBoxClass); |w| <= |r| && r[..|w|] == w
  {
    var r := ReplaceAll(s, BoxClass, SidebarBoxClass);
    if |s| < |BoxClass| {
    } else if MatchAt(s, 0, BoxClass, false) {
      if |w| > |ClassHead| {
        assert s[|ClassHead|] == BoxClass[|ClassHead|] == '"';
        NoQuoteWithin(s, 0, w, |ClassHead|);
        assert false;
      }
      assert w == ClassHead[..|w|] by {
        forall k | 0 <= k < |w| ensures w[k] == ClassHead[k] {
          assert w[k] == s[0 + k] == BoxClass[k];
        }
      }
      assert r == ClassHead + (" nb-sidebar\"" + ReplaceAll(s[|BoxClass|..], BoxClass, SidebarBoxClass));
    } else if w != [] {
      assert s[1..][..|w| - 1] == w[1..];
      SidebarKeepsPrefix(s[1..], w[1..]);
      assert r == [s[0]] + ReplaceAll(s[1..], BoxClass, SidebarBoxClass);
      assert r[..|w|] == [s[0]] + w[1..];
    }
  }

  /**
   * The sidebar rewrite keeps every occurrence of text without `"`: it only
   * inserts ` nb-sidebar` before the closing quote of the class attribute.
   */
  lemma {:induction false} SidebarKeepsText(s: string, m: nat, w: string)
    requires MatchAt(s, m, w, false) && Unquoted(w)
    ensures Contains(ReplaceAll(s, BoxClass, SidebarBoxClass), w)
    decreases |s|
  {
    var r := ReplaceAll(s, BoxClass, SidebarBoxClass);
    if |s| < |BoxClass| {
      ContainsAt(r, m, w);
    } else if m == 0 {
      SidebarKeepsPrefix(s, w);
      ContainsAt(r, 0, w);
    } else if MatchAt(s, 0, BoxClass, false) {
      var rest := ReplaceAll(s[|BoxClass|..], BoxClass, SidebarBoxClass);
      assert r == SidebarBoxClass + rest;
      if m >= |BoxClass| {
        assert s[|BoxClass|..][m - |BoxClass|..m - |BoxClass| + |w|] == s[m..m + |w|];
        SidebarKeepsText(s[|BoxClass|..], m - |BoxClass|, w);
        ContainsInFrame(SidebarBoxClass, rest, "", w);
        assert SidebarBoxClass + rest + "" == r;
      } else {
        SidebarKeepsInClass(s, m, w);
      }
    } else {
      var rest := ReplaceAll(s[1..], BoxClass, SidebarBoxClass);
      assert r == [s[0]] + rest;
      assert s[1..][m - 1..m - 1 + |w|] == s[m..m + |w|];
      SidebarKeepsText(s[1..], m - 1, w);
      ContainsInFrame([s[0]], rest, "", w);
      assert [s[0]] + rest + "" == r;
    }
  }

  /** Text without `"` inside the rewritten class attribute is where it was. */
  lemma SidebarKeepsInClass(s: string, m: nat, w: string)
    requires MatchAt(s, m, w, false) && Unquoted(w)
    requires MatchAt(s, 0, BoxClass, false) && m < |BoxClass|
    ensures Contains(ReplaceAll(s, BoxClass, SidebarBoxClass), w)
  {
    if m + |w| > |ClassHead| {
      assert s[|ClassHead|] == BoxClass[|ClassHead|] == '"';
      NoQuoteWithin(s, m, w, |ClassHead|);
      assert false;
    }
    ReplaceKeepsHead(s, m, w, ClassHead, "\"", " nb-sidebar\"");
  }

  /**
   * Where every replaced occurrence starts with `head` on both sides, an
   * occurrence of `w` inside the leading `head` stays put.
   */
  lemma ReplaceKeepsHead(s: string, m: nat, w: string, head: string, a: string, b: string)
    requires MatchAt(s, m, w, false) && m + |w| <= |head|
    requires a != [] && MatchAt(s, 0, head + a, false)
    ensures Contains(ReplaceAll(s, head + a, head + b), w)
  {
    var rest := ReplaceAll(s[|head + a|..], head + a, head + b);
    ReplaceAllAtMatch(s, head + a, head + b);
    MatchInHead(s, m, w, head, a);
    ContainsAt(head, m, w);
    ContainsExtend(head, b, w);
    ContainsExtend(head + b, rest, w);
  }

  /** An occurrence inside the leading `head` of a match of `head + a` is an occurrence in `head`. */
  lemma MatchInHead(s: string, m: nat, w: string, head: string, a: string)
    requires MatchAt(s, m, w, false) && m + |w| <= |head|
    requires MatchAt(s, 0, head + a, false)
    ensures MatchAt(head, m, w, false)
  {
    forall k | 0 <= k < |w| ensures head[m + k] == w[k] {
      assert s[0 + (m + k)] == (head + a)[m + k];
    }
  }

  /** Marker text in a block (no `"` in it) survives placement in every layout. */
  lemma PlacedBlockKeepsMarker(block: string, pos: Position, w: string)
    requires Contains(block, w) && Unquoted(w)
    ensures Contains(PlacedBlock(block, pos), w)
  {
    if pos == Sidebar {
      SidebarKeepsText(block, Find(block, w, 0, false).value, w);
    }
  }
}
