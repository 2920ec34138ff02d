/**
 * String primitives of Python that the core relies on: ASCII `lower`,
 * `find` / `in`, `split` on one character, `replace` (all occurrences and
 * the first one only) and decimal rendering of a natural number.
 */
module Text {
  import opened Wrappers

  /** ASCII lower-casing of one character. */
  function LowerChar(c: char): char
  {
    if 'A' <= c <= 'Z' then (c as int + 32) as char else c
  }

  /** `str.lower()` restricted to ASCII letters. */
  function Lower(s: string): (r: string)
    ensures |r| == |s|
    ensures forall k :: 0 <= k < |s| ==> r[k] == LowerChar(s[k])
  {
    seq(|s|, k requires 0 <= k < |s| => LowerChar(s[k]))
  }

  /** Lower-casing an already lower-cased string changes nothing. */
  lemma LowerIdempotent(s: string)
    ensures Lower(Lower(s)) == Lower(s)
  {
  }

  /** `p` occurs in `s` at index `i`; with `ignoreCase`, `s` is compared after ASCII lower-casing (`p` is then given in lower case). */
  predicate MatchAt(s: string, i: nat, p: string, ignoreCase: bool)
  {
    i + |p| <= |s| && forall k :: 0 <= k < |p| ==> (if ignoreCase then LowerChar(s[i + k]) else s[i + k]) == p[k]
  }

  /** Leftmost index at or after `from` at which `p` occurs: `str.find` and, case-insensitively, `re.search` of a literal. */
  function Find(s: string, p: string, from: nat, ignoreCase: bool): (r: Option<nat>)
    decreases |s| + 1 - from
    ensures r.Some? ==> from <= r.value && MatchAt(s, r.value, p, ignoreCase)
  {
    if from > |s| then None
    else if MatchAt(s, from, p, ignoreCase) then Some(from)
    else Find(s, p, from + 1, ignoreCase)
  }

  /** `Find` finds the leftmost occurrence, and misses none. */
  lemma {:induction false} FindSpec(s: string, p: string, from: nat, ignoreCase: bool)
    decreases |s| + 1 - from
    ensures var r := Find(s, p, from, ignoreCase);
      (r.Some? ==> forall j :: from <= j < r.value ==> !MatchAt(s, j, p, ignoreCase)) &&
      (r.None? ==> forall j :: from <= j ==> !MatchAt(s, j, p, ignoreCase))
  {
    if from <= |s| && !MatchAt(s, from, p, ignoreCase) {
      FindSpec(s, p, from + 1, ignoreCase);
    }
  }

  /** Python's `p in s`. */
  predicate Contains(s: string, p: string)
  {
    Find(s, p, 0, false).Some?
  }

  /** An occurrence anywhere is found by `Contains`. */
  lemma ContainsAt(s: string, i: nat, p: string)
    requires MatchAt(s, i, p, false)
    ensures Contains(s, p)
  {
    FindSpec(s, p, 0, false);
  }

  /** An exact match is the slice of `s` there being `p`. */
  lemma MatchAtSlice(s: string, i: nat, p: string)
    requires i + |p| <= |s|
    ensures MatchAt(s, i, p, false) <==> s[i..i + |p|] == p
  {
    if MatchAt(s, i, p, false) {
      assert forall k :: 0 <= k < |p| ==> s[i..i + |p|][k] == p[k];
    }
  }

  /** A case-insensitive match is the lower-cased slice of `s` there being `p`. */
  lemma MatchAtLowerSlice(s: string, i: nat, p: string)
    requires i + |p| <= |s|
    ensures MatchAt(s, i, p, true) <==> Lower(s[i..i + |p|]) == p
  {
    if MatchAt(s, i, p, true) {
      assert forall k :: 0 <= k < |p| ==> Lower(s[i..i + |p|])[k] == p[k];
    }
  }

  /** Text that occurs in `b` still occurs once `b` is surrounded by other text. */
  lemma ContainsInFrame(a: string, b: string, c: string, p: string)
    requires Contains(b, p)
    ensures Contains(a + b + c, p)
  {
    var i := Find(b, p, 0, false).value;
    assert (a + b + c)[|a| + i..|a| + i + |p|] == b[i..i + |p|];
    ContainsAt(a + b + c, |a| + i, p);
  }

  /** Text occurs wherever it is written. */
  lemma ContainsMiddle(a: string, p: string, b: string)
    ensures Contains(a + p + b, p)
  {
    assert MatchAt(a + p + b, |a|, p, false);
    ContainsAt(a + p + b, |a|, p);
  }

  /** Text that occurs in `a` still occurs once more text follows. */
  lemma ContainsExtend(a: string, b: string, p: string)
    requires Contains(a, p)
    ensures Contains(a + b, p)
  {
    var i := Find(a, p, 0, false).value;
    assert MatchAt(a + b, i, p, false);
    ContainsAt(a + b, i, p);
  }

  /** One character of a case-insensitive match. */
  lemma MatchAtLowerChar(s: string, i: nat, p: string, k: nat)
    requires MatchAt(s, i, p, true) && k < |p|
    ensures LowerChar(s[i + k]) == p[k]
  {
  }

  /** Where `p` occurs in `s` at `i`, the character at `k` is the matching character of `p`. */
  lemma MatchAtChar(s: string, i: nat, p: string, k: nat)
    requires MatchAt(s, i, p, false) && i <= k < i + |p|
    ensures s[k] == p[k - i]
  {
    assert s[i..i + |p|][k - i] == s[k];
  }

  /** Two texts with the same prefix and suffix around them are equal only when they are equal. */
  lemma FrameInjective(a: string, x: string, y: string, b: string)
    requires a + x + b == a + y + b
    ensures x == y
  {
    assert |x| == |y|;
    assert x == (a + x + b)[|a|..|a| + |x|];
    assert y == (a + y + b)[|a|..|a| + |y|];
  }

  /** Every text occurs in itself. */
  lemma ContainsSelf(p: string)
    ensures Contains(p, p)
  {
    assert p[0..|p|] == p;
    ContainsAt(p, 0, p);
  }

  /** Cutting `s[e..]` at `a` and `b` and putting `x` between is cutting `s` at `e + a` and `e + b`. */
  lemma ReplaceSegment(s: string, e: nat, a: nat, b: nat, x: string)
    requires a <= b && e + b <= |s|
    ensures s[..e] + s[e..][..a] + x + s[e..][b..] == s[..e + a] + x + s[e + b..]
  {
    assert s[..e] + s[e..][..a] == s[..e + a];
    assert s[e..][b..] == s[e + b..];
  }

  /**
   * Inserting text at index `at` keeps every occurrence of `p`, provided
   * the character just before the insertion point does not occur in `p`
   * (so no occurrence can straddle the point).
   */
  lemma ContainsAfterInsert(s: string, at: nat, x: string, p: string)
    requires 0 < at <= |s|
    requires forall k :: 0 <= k < |p| ==> p[k] != s[at - 1]
    requires Contains(s, p)
    ensures Contains(s[..at] + x + s[at..], p)
  {
    var i := Find(s, p, 0, false).value;
    var t := s[..at] + x + s[at..];
    if i + |p| <= at {
      assert t[i..i + |p|] == s[i..i + |p|];
      ContainsAt(t, i, p);
    } else if i >= at {
      assert t[i + |x|..i + |x| + |p|] == s[i..i + |p|];
      ContainsAt(t, i + |x|, p);
    } else {
      MatchAtChar(s, i, p, at - 1);
      assert false;
    }
  }

  /** Number of occurrences of the character `c` in `s`. */
  function Count(s: string, c: char): nat
  {
    if s == [] then 0 else (if s[0] == c then 1 else 0) + Count(s[1..], c)
  }

  lemma {:induction false} CountConcat(a: string, b: string, c: char)
    ensures Count(a + b, c) == Count(a, c) + Count(b, c)
  {
    if a == [] {
      assert a + b == b;
    } else {
      assert (a + b)[1..] == a[1..] + b;
      CountConcat(a[1..], b, c);
    }
  }

  lemma {:induction false} CountAbsent(s: string, c: char)
    requires forall k :: 0 <= k < |s| ==> s[k] != c
    ensures Count(s, c) == 0
  {
    if s != [] {
      CountAbsent(s[1..], c);
    }
  }

  /** Joins pieces with the separator `sep` between consecutive pieces (Python's `sep.join`). */
  function Join(pieces: seq<string>, sep: char): string
  {
    if |pieces| == 0 then ""
    else if |pieces| == 1 then pieces[0]
    else pieces[0] + [sep] + Join(pieces[1..], sep)
  }

  /**
   * Python's `s.split(sep)` for a one-character separator: always at least
   * one piece, no piece contains `sep`, every character of a piece comes
   * from `s`, and joining the pieces with `sep` gives `s` back.
   */
  function Split(s: string, sep: char): (r: seq<string>)
    ensures |r| >= 1
    ensures forall i, k :: 0 <= i < |r| && 0 <= k < |r[i]| ==> r[i][k] != sep && r[i][k] in s
    ensures Join(r, sep) == s
  {
    if s == [] then [""]
    else
      var rest := Split(s[1..], sep);
      if s[0] == sep then
        assert s == [sep] + s[1..];
        [""] + rest
      else
        var r := [[s[0]] + rest[0]] + rest[1..];
        assert r[1..] == rest[1..];
        assert s == [s[0]] + s[1..];
        assert forall i, k :: 0 <= i < |r| && 0 <= k < |r[i]| ==> r[i][k] != sep && r[i][k] in s by {
          forall i, k | 0 <= i < |r| && 0 <= k < |r[i]| ensures r[i][k] != sep && r[i][k] in s {
            if i == 0 && k > 0 {
              assert r[i][k] == rest[0][k - 1];
            } else if i > 0 {
              assert r[i] == rest[i];
            }
          }
        }
        r
  }

  /**
   * Python's `s.replace(pat, rep)`: every non-overlapping occurrence,
   * scanning left to right. Replacing a pattern by itself changes nothing,
   * and a replacement no shorter than the pattern never shortens the text.
   */
  function ReplaceAll(s: string, pat: string, rep: string): (r: string)
    decreases |s|
    ensures pat != [] && rep == pat ==> r == s
    ensures pat != [] && |pat| <= |rep| ==> |s| <= |r|
  {
    if pat == [] then
      (if s == [] then rep else rep + [s[0]] + ReplaceAll(s[1..], pat, rep))
    else if |s| < |pat| then s
    else if MatchAt(s, 0, pat, false) then
      MatchAtSlice(s, 0, pat);
      assert s == s[..|pat|] + s[|pat|..];
      rep + ReplaceAll(s[|pat|..], pat, rep)
    else
      assert s == [s[0]] + s[1..];
      [s[0]] + ReplaceAll(s[1..], pat, rep)
  }

  /** A match at the front is replaced and the scan goes on after it. */
  lemma ReplaceAllAtMatch(s: string, pat: string, rep: string)
    requires pat != [] && MatchAt(s, 0, pat, false)
    ensures ReplaceAll(s, pat, rep) == rep + ReplaceAll(s[|pat|..], pat, rep)
  {
  }

  /** Matches in `s[1..]` are the matches in `s`, one index further on. */
  lemma MatchAtTail(s: string, j: nat, pat: string)
    requires s != []
    ensures MatchAt(s[1..], j, pat, false) <==> MatchAt(s, j + 1, pat, false)
  {
    if j + 1 + |pat| <= |s| {
      forall k | j + 1 <= k < j + 1 + |pat| ensures s[k] == s[1..][k - 1] {
      }
    }
  }

  /** An occurrence in the second part of a concatenation, seen from the whole. */
  lemma MatchAtConcat(a: string, b: string, p: nat, w: string)
    ensures MatchAt(a + b, |a| + p, w, false) <==> MatchAt(b, p, w, false)
  {
    if p + |w| <= |b| {
      forall k | |a| + p <= k < |a| + p + |w| ensures (a + b)[k] == b[k - |a|] {
      }
    }
  }

  /** An occurrence at the front of `[c] + b`: `c` is its first character, the rest occurs at the front of `b`. */
  lemma MatchAtCons(c: char, b: string, w: string)
    requires w != []
    ensures MatchAt([c] + b, 0, w, false) <==> c == w[0] && MatchAt(b, 0, w[1..], false)
  {
    if MatchAt(b, 0, w[1..], false) && c == w[0] {
      forall k | 0 <= k < |w| ensures ([c] + b)[k] == w[k] {
        if k > 0 { assert ([c] + b)[k] == b[k - 1] && w[1..][k - 1] == w[k]; }
      }
    }
    if MatchAt([c] + b, 0, w, false) {
      forall k | 0 <= k < |w| - 1 ensures b[k] == w[1..][k] {
        assert ([c] + b)[k + 1] == b[k];
      }
    }
  }

  /** A scan step past a non-matching first character keeps that character. */
  lemma ReplaceAllSkip(s: string, pat: string, rep: string)
    requires pat != [] && |pat| <= |s| && !MatchAt(s, 0, pat, false)
    ensures ReplaceAll(s, pat, rep) == [s[0]] + ReplaceAll(s[1..], pat, rep)
  {
  }

  /** Text without a (non-empty) pattern is left unchanged by `replace`. */
  lemma {:induction false} ReplaceAllAbsent(s: string, pat: string, rep: string)
    requires pat != []
    requires !Contains(s, pat)
    ensures ReplaceAll(s, pat, rep) == s
  {
    FindSpec(s, pat, 0, false);
    if |s| >= |pat| {
      assert !MatchAt(s, 0, pat, false);
      forall j | 0 <= j ensures !MatchAt(s[1..], j, pat, false) {
        if j + |pat| <= |s[1..]| {
          assert s[1..][j..j + |pat|] == s[j + 1..j + 1 + |pat|];
          assert !MatchAt(s, j + 1, pat, false);
        }
      }
      ReplaceAllAbsent(s[1..], pat, rep);
      assert s == [s[0]] + s[1..];
    }
  }

  /**
   * Python's `s.replace(pat, rep, 1)`: one occurrence is replaced when there
   * is one (the leftmost, see `ReplaceFirstExtends`), and without an
   * occurrence nothing changes.
   */
  function ReplaceFirst(s: string, pat: string, rep: string): (r: string)
    ensures !Contains(s, pat) ==> r == s
    ensures Contains(s, pat) ==> |r| == |s| - |pat| + |rep|
  {
    match Find(s, pat, 0, false)
    case None => s
    case Some(i) => s[..i] + rep + s[i + |pat|..]
  }

  /**
   * Replacing the first `pat` by `pat + x` is the insertion of `x` right
   * after the first occurrence; without an occurrence nothing changes.
   */
  lemma ReplaceFirstExtends(s: string, pat: string, x: string)
    ensures Contains(s, pat) ==>
      var i := Find(s, pat, 0, false).value;
      ReplaceFirst(s, pat, pat + x) == s[..i + |pat|] + x + s[i + |pat|..]
    ensures !Contains(s, pat) ==> ReplaceFirst(s, pat, pat + x) == s
  {
    if Contains(s, pat) {
      var i := Find(s, pat, 0, false).value;
      MatchAtSlice(s, i, pat);
      assert s[..i + |pat|] == s[..i] + pat;
      ConcatRegroup(s[..i], pat, x, s[i + |pat|..]);
    }
  }

  lemma ConcatRegroup(a: string, b: string, c: string, d: string)
    ensures a + (b + c) + d == a + b + c + d
  {
  }

  function Digit(d: nat): char
    requires d < 10
  {
    "0123456789"[d]
  }

  function DigitValue(c: char): int
  {
    c as int - '0' as int
  }

  /** Decimal rendering of a natural number, as Python's f-string `{n}`. */
  function NatToString(n: nat): (r: string)
    ensures |r| >= 1
    ensures forall k :: 0 <= k < |r| ==> '0' <= r[k] <= '9'
  {
    if n < 10 then [Digit(n)] else NatToString(n / 10) + [Digit(n % 10)]
  }

  /** Value of a string of decimal digits. */
  function ParseNat(s: string): int
  {
    if s == [] then 0 else 10 * ParseNat(s[..|s| - 1]) + DigitValue(s[|s| - 1])
  }

  /** Decimal rendering loses nothing: parsing it back gives the number. */
  lemma {:induction false} NatToStringRoundTrip(n: nat)
    ensures ParseNat(NatToString(n)) == n
  {
    if n >= 10 {
      var r := NatToString(n);
      assert r[..|r| - 1] == NatToString(n / 10);
      NatToStringRoundTrip(n / 10);
    }
  }

  /** Distinct numbers have distinct decimal renderings. */
  lemma NatToStringInjective(m: nat, n: nat)
    requires m != n
    ensures NatToString(m) != NatToString(n)
  {
    NatToStringRoundTrip(m);
    NatToStringRoundTrip(n);
  }
}
