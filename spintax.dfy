/**
 * The spintax expander of site_enhance_all.py: it repeatedly finds the
 * leftmost group `{alt1|alt2|...}` that has no brace inside and at least one
 * character, replaces it by one of its `|`-separated alternatives, and stops
 * when no such group is left. Nested groups are thereby resolved from the
 * inside out. The random choice is an oracle `pick`: the t-th replacement
 * takes alternative `pick(t) % n` of its n alternatives, so every property
 * proved here holds for every sequence of choices.
 */
module Spintax {
  import opened Wrappers
  import opened Text

  predicate IsBrace(c: char)
  {
    c == '{' || c == '}'
  }

  /**
   * `s[start..end]` is matched by the pattern `\{([^{}]+)\}`: an opening and a
   * closing brace around at least one character, none of them a brace.
   */
  predicate IsGroup(s: string, start: nat, end: nat)
  {
    start + 3 <= end <= |s| && s[start] == '{' && s[end - 1] == '}' &&
    forall k :: start < k < end - 1 ==> !IsBrace(s[k])
  }

  /** No group is left in `s`: the expander's stopping condition. */
  ghost predicate Resolved(s: string)
  {
    forall i: nat, j: nat :: !IsGroup(s, i, j)
  }

  datatype Group = Group(start: nat, end: nat)

  /** Index of the first brace at or after `from`, or `|s|` when there is none. */
  function NextBrace(s: string, from: nat): (k: nat)
    requires from <= |s|
    decreases |s| - from
    ensures from <= k <= |s|
    ensures k < |s| ==> IsBrace(s[k])
    ensures forall j :: from <= j < k ==> !IsBrace(s[j])
  {
    if from == |s| || IsBrace(s[from]) then from else NextBrace(s, from + 1)
  }

  /** End of the group that starts at index `i`, if a group starts there (at most one can). */
  function GroupEndAt(s: string, i: nat): (r: Option<nat>)
    ensures r.Some? ==> IsGroup(s, i, r.value)
    ensures r.None? ==> forall j: nat :: !IsGroup(s, i, j)
  {
    if i < |s| && s[i] == '{' then
      var k := NextBrace(s, i + 1);
      if k < |s| && s[k] == '}' && k > i + 1 then Some(k + 1)
      else
        assert forall j: nat :: !IsGroup(s, i, j) by {
          forall j: nat | IsGroup(s, i, j) ensures false {
            assert IsBrace(s[j - 1]);
          }
        }
        None
    else None
  }

  /** The leftmost group starting at or after `from`, as `re.search` finds it. */
  function FindGroup(s: string, from: nat): (r: Option<Group>)
    decreases |s| - from
    ensures r.Some? ==> from <= r.value.start && IsGroup(s, r.value.start, r.value.end)
    ensures r.Some? ==> forall i: nat, j: nat :: from <= i < r.value.start ==> !IsGroup(s, i, j)
    ensures r.None? ==> forall i: nat, j: nat :: from <= i ==> !IsGroup(s, i, j)
  {
    if from >= |s| then None
    else match GroupEndAt(s, from)
      case Some(e) => Some(Group(from, e))
      case None => FindGroup(s, from + 1)
  }

  /** `FindGroup` finds a group exactly when one is left. */
  lemma FindGroupComplete(s: string)
    ensures FindGroup(s, 0).None? <==> Resolved(s)
  {
  }

  /** The `|`-separated alternatives of a group, as `m.group(1).split("|")`. */
  function Alternatives(s: string, g: Group): (alts: seq<string>)
    requires IsGroup(s, g.start, g.end)
    ensures |alts| >= 1
    ensures Join(alts, '|') == s[g.start + 1..g.end - 1]
    ensures forall a, k :: 0 <= a < |alts| && 0 <= k < |alts[a]| ==>
      alts[a][k] != '|' && !IsBrace(alts[a][k])
  {
    Split(s[g.start + 1..g.end - 1], '|')
  }

  /** The text with group `g` replaced by `alt`. */
  function Substitute(s: string, g: Group, alt: string): string
    requires g.start <= g.end <= |s|
  {
    s[..g.start] + alt + s[g.end..]
  }

  /** Replacing a group by one of its alternatives removes exactly one `{`: the termination measure. */
  lemma SubstituteRemovesOneBrace(s: string, g: Group, a: nat)
    requires IsGroup(s, g.start, g.end)
    requires a < |Alternatives(s, g)|
    ensures Count(Substitute(s, g, Alternatives(s, g)[a]), '{') + 1 == Count(s, '{')
  {
    var alt := Alternatives(s, g)[a];
    var inner := s[g.start + 1..g.end - 1];
    var pre, grp, post := s[..g.start], s[g.start..g.end], s[g.end..];
    assert s == pre + grp + post;
    assert grp == ['{'] + inner + ['}'];
    CountConcat(pre + grp, post, '{');
    CountConcat(pre, grp, '{');
    CountConcat(['{'] + inner, ['}'], '{');
    CountConcat(['{'], inner, '{');
    forall k | 0 <= k < |inner| ensures inner[k] != '{' {
      assert inner[k] == s[g.start + 1 + k];
    }
    CountAbsent(inner, '{');
    CountAbsent(alt, '{');
    CountAbsent(['}'], '{');
    CountConcat(s[..g.start] + alt, s[g.end..], '{');
    CountConcat(s[..g.start], alt, '{');
  }

  /**
   * The expansion that the loop computes, with the t-th replacement taking
   * alternative `pick(t) % n`. Its result never has a group left, and text
   * without a group comes back unchanged.
   */
  function Expand(s: string, pick: nat -> nat, t: nat): (r: string)
    decreases Count(s, '{')
    ensures Resolved(r)
    ensures Resolved(s) ==> r == s
  {
    match FindGroup(s, 0)
    case None => s
    case Some(g) =>
      var alts := Alternatives(s, g);
      var a := pick(t) % |alts|;
      SubstituteRemovesOneBrace(s, g, a);
      Expand(Substitute(s, g, alts[a]), pick, t + 1)
  }

  /**
   * `spintax(s)`: the `while` loop of `spintax`. It returns the expansion
   * above, so its result has no group left.
   */
  method Spin(s: string, pick: nat -> nat) returns (r: string)
    ensures r == Expand(s, pick, 0)
    ensures Resolved(r)
  {
    r := s;
    var t := 0;
    while true
      invariant Expand(r, pick, t) == Expand(s, pick, 0)
      decreases Count(r, '{')
    {
      var m := FindGroup(r, 0);
      if m.None? {
        break;
      }
      var g := m.value;
      var choices := Split(r[g.start + 1..g.end - 1], '|');
      var a := pick(t) % |choices|;
      SubstituteRemovesOneBrace(r, g, a);
      r := r[..g.start] + choices[a] + r[g.end..];
      t := t + 1;
    }
  }

  /** The expander changes its input exactly when a group is present. */
  lemma ExpandUnchangedIff(s: string, pick: nat -> nat, t: nat)
    ensures Expand(s, pick, t) == s <==> Resolved(s)
  {
  }

  /** A literal `{}` (an empty alternative list) is not a group and is left as it is. */
  lemma EmptyBracesStayLiteral(pick: nat -> nat)
    ensures Expand("{}", pick, 0) == "{}"
    ensures Expand("a {} b", pick, 0) == "a {} b"
  {
    assert Resolved("a {} b");
  }

  /** Two groups that start at the same index end at the same index. */
  lemma GroupEndUnique(s: string, i: nat, j: nat, j': nat)
    requires IsGroup(s, i, j) && IsGroup(s, i, j')
    ensures j == j'
  {
    if j < j' { assert IsBrace(s[j - 1]); }
    if j' < j { assert IsBrace(s[j' - 1]); }
  }

  /** The search from the start finds the leftmost group. */
  lemma LeftmostGroupFound(s: string, i: nat, j: nat)
    requires IsGroup(s, i, j)
    requires forall i2: nat, j2: nat :: i2 < i ==> !IsGroup(s, i2, j2)
    ensures FindGroup(s, 0) == Some(Group(i, j))
  {
    var g := FindGroup(s, 0).value;
    assert g.start == i;
    GroupEndUnique(s, i, j, g.end);
  }

  /** Expansion replaces the group that the search finds and goes on with the next choice. */
  lemma ExpandFoundGroup(s: string, pick: nat -> nat, t: nat, i: nat, j: nat)
    requires FindGroup(s, 0) == Some(Group(i, j))
    ensures i + 3 <= j <= |s|
    ensures var alts := Split(s[i + 1..j - 1], '|');
      |alts| >= 1 &&
      Expand(s, pick, t) == Expand(s[..i] + alts[pick(t) % |alts|] + s[j..], pick, t + 1)
  {
    var g := Group(i, j);
    var alts := Alternatives(s, g);
    assert alts == Split(s[i + 1..j - 1], '|');
    var a := pick(t) % |alts|;
    assert Substitute(s, g, alts[a]) == s[..i] + alts[a] + s[j..];
    assert Expand(s, pick, t) == Expand(Substitute(s, g, alts[a]), pick, t + 1);
  }

  /**
   * One step: when the leftmost group of `s` spans `s[i..j]`, the expansion
   * of `s` is the expansion of `s` with that group replaced by the `|`-split
   * alternative that the oracle picks, the text around it unchanged.
   */
  lemma StepKeepsContext(s: string, pick: nat -> nat, t: nat, i: nat, j: nat)
    requires IsGroup(s, i, j)
    requires forall i2: nat, j2: nat :: i2 < i ==> !IsGroup(s, i2, j2)
    ensures var alts := Split(s[i + 1..j - 1], '|');
      |alts| >= 1 &&
      Expand(s, pick, t) == Expand(s[..i] + alts[pick(t) % |alts|] + s[j..], pick, t + 1)
  {
    LeftmostGroupFound(s, i, j);
    ExpandFoundGroup(s, pick, t, i, j);
  }

  /** The `{a|b}-{c|d}` example: every oracle yields one of four texts. */
  lemma TwoGroupsOutcomes(pick: nat -> nat)
    ensures var r := Expand("{a|b}-{c|d}", pick, 0);
      r == "a-c" || r == "a-d" || r == "b-c" || r == "b-d"
  {
    TwoGroupsSteps(pick);
  }

  function Left(n: nat): char
  {
    if n % 2 == 0 then 'a' else 'b'
  }

  function Right(n: nat): char
  {
    if n % 2 == 0 then 'c' else 'd'
  }

  lemma SplitTwo(x: char, y: char)
    requires x != '|' && y != '|'
    ensures Split([x, '|', y], '|') == [[x], [y]]
  {
    assert Split([], '|') == [""];
    assert [y][1..] == [];
    assert Split([y], '|') == [[y]];
    assert ['|', y][1..] == [y];
    assert Split(['|', y], '|') == ["", [y]];
    assert [x, '|', y][1..] == ['|', y];
    assert [x] + "" == [x];
    assert ["", [y]][1..] == [[y]];
  }

  /** The first step of the example: the group `{x|y}` in front is found and replaced. */
  lemma FirstStep(p: nat -> nat, x: char, y: char)
    requires x != '|' && y != '|' && !IsBrace(x) && !IsBrace(y)
    ensures Expand(['{', x, '|', y, '}', '-', '{', 'c', '|', 'd', '}'], p, 0) ==
      Expand([if p(0) % 2 == 0 then x else y, '-', '{', 'c', '|', 'd', '}'], p, 1)
  {
    var s := ['{', x, '|', y, '}', '-', '{', 'c', '|', 'd', '}'];
    var g := Group(0, 5);
    FrontGroup(x, y);
    var s1 := [if p(0) % 2 == 0 then x else y, '-', '{', 'c', '|', 'd', '}'];
    assert Substitute(s, g, Alternatives(s, g)[p(0) % 2]) == s1;
  }

  lemma FrontGroup(x: char, y: char)
    requires x != '|' && y != '|' && !IsBrace(x) && !IsBrace(y)
    ensures var s := ['{', x, '|', y, '}', '-', '{', 'c', '|', 'd', '}'];
      FindGroup(s, 0) == Some(Group(0, 5)) && Alternatives(s, Group(0, 5)) == [[x], [y]]
  {
    var s := ['{', x, '|', y, '}', '-', '{', 'c', '|', 'd', '}'];
    assert NextBrace(s, 4) == 4;
    assert NextBrace(s, 3) == 4;
    assert NextBrace(s, 2) == 4;
    assert NextBrace(s, 1) == 4;
    assert FindGroup(s, 0) == Some(Group(0, 5));
    assert s[1..4] == [x, '|', y];
    SplitTwo(x, y);
  }

  /** The second step of the example: the group `{c|d}` is found and replaced, and nothing is left. */
  lemma SecondStep(p: nat -> nat, x: char)
    requires x == 'a' || x == 'b'
    ensures Expand([x, '-', '{', 'c', '|', 'd', '}'], p, 1) == [x, '-', Right(p(1))]
  {
    var s1 := [x, '-', '{', 'c', '|', 'd', '}'];
    assert GroupEndAt(s1, 0).None?;
    assert GroupEndAt(s1, 1).None?;
    assert NextBrace(s1, 6) == 6;
    assert NextBrace(s1, 5) == 6;
    assert NextBrace(s1, 4) == 6;
    assert NextBrace(s1, 3) == 6;
    var g1 := Group(2, 7);
    assert FindGroup(s1, 2) == Some(g1);
    assert FindGroup(s1, 1) == Some(g1);
    assert FindGroup(s1, 0) == Some(g1);
    assert s1[3..6] == ['c', '|', 'd'];
    SplitTwo('c', 'd');
    var s2 := [x, '-', Right(p(1))];
    assert Substitute(s1, g1, Alternatives(s1, g1)[p(1) % 2]) == s2;
    assert Resolved(s2);
  }

  /**
   * The `{a|b}-{c|d}` example exactly: the first choice decides `a` or `b`,
   * the second `c` or `d`, so each of the four texts is produced by the
   * oracles whose first two draws select it.
   */
  lemma TwoGroupsSteps(p: nat -> nat)
    ensures Expand("{a|b}-{c|d}", p, 0) == [Left(p(0)), '-', Right(p(1))]
  {
    FirstStep(p, 'a', 'b');
    SecondStep(p, Left(p(0)));
  }
}
