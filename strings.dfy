/** Character classes and string scanners shared by the extractor and the
    query service: the pieces of Python's `re`, `str.lower` and `str.strip`
    that the two programs use. */
module Strings {

  /** Python's `str.isspace()`, which is also what `\s` matches in a `str`
      pattern and what `str.strip()` removes. */
  predicate IsSpace(c: char)
  {
    || ('\t' <= c <= '\r')
    || ('\U{1C}' <= c <= ' ')
    || c == '\U{85}' || c == '\U{A0}' || c == '\U{1680}'
    || ('\U{2000}' <= c <= '\U{200A}')
    || c == '\U{2028}' || c == '\U{2029}' || c == '\U{202F}' || c == '\U{205F}' || c == '\U{3000}'
  }

  predicate IsDigit(c: char)
  {
    '0' <= c <= '9'
  }

  function DigitValue(c: char): (d: nat)
    requires IsDigit(c)
    ensures d <= 9
  {
    c as int - '0' as int
  }

  /** ASCII lower-casing of one character. */
  function LowerChar(c: char): char
  {
    if 'A' <= c <= 'Z' then (c as int + 32) as char else c
  }

  function Lower(s: string): string
  {
    seq(|s|, k requires 0 <= k < |s| => LowerChar(s[k]))
  }

  /** `pat` occurs in `s` starting at position `i`. */
  predicate At(s: string, i: nat, pat: string)
  {
    i + |pat| <= |s| && forall k :: 0 <= k < |pat| ==> s[i + k] == pat[k]
  }

  /** `pat` occurs in `s` at `i` when case is ignored. */
  predicate AtIgnoreCase(s: string, i: nat, pat: string)
  {
    i + |pat| <= |s| && forall k :: 0 <= k < |pat| ==> LowerChar(s[i + k]) == LowerChar(pat[k])
  }

  predicate EndsWith(s: string, suffix: string)
  {
    |suffix| <= |s| && At(s, |s| - |suffix|, suffix)
  }

  /** Every character of `s[i..j]` satisfies `p`. */
  predicate All(s: string, i: nat, j: nat, p: char -> bool)
    requires i <= j <= |s|
  {
    forall k :: i <= k < j ==> p(s[k])
  }

  /** End of the longest run of `p`-characters that starts at `i`: what a
      greedy `p*` consumes. */
  function RunEnd(s: string, i: nat, p: char -> bool): (j: nat)
    requires i <= |s|
    ensures i <= j <= |s|
    ensures All(s, i, j, p)
    ensures j == |s| || !p(s[j])
    decreases |s| - i
  {
    if i < |s| && p(s[i]) then RunEnd(s, i + 1, p) else i
  }

  /** No two neighbouring characters of `s` both satisfy `p`. */
  predicate NoAdjacent(s: string, p: char -> bool)
  {
    forall k :: 0 <= k < |s| - 1 ==> !(p(s[k]) && p(s[k + 1]))
  }

  /** The characters of `s` that do not satisfy `p`, in order. */
  function Without(s: string, p: char -> bool): string
  {
    if s == [] then [] else (if p(s[0]) then [] else [s[0]]) + Without(s[1..], p)
  }

  lemma {:induction false} WithoutConcat(a: string, b: string, p: char -> bool)
    ensures Without(a + b, p) == Without(a, p) + Without(b, p)
  {
    if a == [] {
      assert a + b == b;
    } else {
      assert (a + b)[0] == a[0] && (a + b)[1..] == a[1..] + b;
      WithoutConcat(a[1..], b, p);
    }
  }

  /** Removing `p`-characters ignores a leading run of them. */
  lemma {:induction false} WithoutSkipsRun(s: string, j: nat, p: char -> bool)
    requires j <= |s| && All(s, 0, j, p)
    ensures Without(s[j..], p) == Without(s, p)
  {
    if j > 0 {
      assert s[1..][j - 1..] == s[j..];
      WithoutSkipsRun(s[1..], j - 1, p);
    }
  }

  /** `re.sub(P + "+", c, s)`: every maximal run of `p`-characters becomes the
      single character `c`, which itself satisfies `p`. */
  function CollapseRuns(s: string, p: char -> bool, c: char): (r: string)
    requires p(c)
    ensures r == [] <==> s == []
    ensures Collapsed(r, p, c)
    decreases |s|
  {
    if s == [] then []
    else if p(s[0]) then [c] + CollapseRuns(s[RunEnd(s, 0, p)..], p, c)
    else [s[0]] + CollapseRuns(s[1..], p, c)
  }

  /** Collapsing runs keeps every other character, in order. */
  lemma {:induction false} CollapseRunsKeepsOthers(s: string, p: char -> bool, c: char)
    requires p(c)
    ensures Without(CollapseRuns(s, p, c), p) == Without(s, p)
    decreases |s|
  {
    if s != [] {
      if p(s[0]) {
        var j := RunEnd(s, 0, p);
        CollapseRunsKeepsOthers(s[j..], p, c);
        WithoutSkipsRun(s, j, p);
        WithoutConcat([c], CollapseRuns(s[j..], p, c), p);
      } else {
        CollapseRunsKeepsOthers(s[1..], p, c);
        WithoutConcat([s[0]], CollapseRuns(s[1..], p, c), p);
      }
    }
  }

  /** A greedy run from `i` reaches at least as far as any run of the class
      from `i`, and no further than a character outside the class. */
  lemma RunEndBounds(s: string, i: nat, p: char -> bool)
    requires i <= |s|
    ensures forall j :: i <= j <= |s| && All(s, i, j, p) ==> j <= RunEnd(s, i, p)
    ensures forall e :: i <= e < |s| && !p(s[e]) ==> RunEnd(s, i, p) <= e
  {
  }

  /** A greedy run that stops inside `s`, or at a character of `t` outside
      the class, ends at the same place in `s + t`. */
  lemma {:induction false} RunEndJoin(s: string, t: string, i: nat, p: char -> bool)
    requires i <= |s|
    requires RunEnd(s, i, p) < |s| || (t != [] && !p(t[0]))
    ensures RunEnd(s + t, i, p) == RunEnd(s, i, p)
    decreases |s| - i
  {
    if i < |s| && p(s[i]) {
      assert (s + t)[i] == s[i];
      RunEndJoin(s, t, i + 1, p);
    } else if i < |s| {
      assert (s + t)[i] == s[i];
    } else {
      assert (s + t)[i] == t[0];
    }
  }

  lemma DropAppend(a: string, t: string, j: nat)
    requires j <= |a|
    ensures (a + t)[j..] == a[j..] + t
  {
  }

  /** Collapsing distributes over a cut made just before a character
      outside the class. */
  /** Where the first piece that collapsing reads from a non-empty `s` ends:
      after its leading run, or after its first character. */
  function PieceEnd(s: string, p: char -> bool): (j: nat)
    requires s != []
    ensures 1 <= j <= |s|
  {
    if p(s[0]) then RunEnd(s, 0, p) else 1
  }

  /** Collapsing `a + t` starts with the collapse of the first piece of `a`,
      provided that piece does not run on into `t`. */
  lemma CollapseRunsHead(a: string, t: string, p: char -> bool, c: char)
    requires p(c) && a != []
    requires PieceEnd(a, p) < |a| || (t != [] && !p(t[0])) || !p(a[0])
    ensures CollapseRuns(a + t, p, c)
         == (if p(a[0]) then [c] else [a[0]]) + CollapseRuns(a[PieceEnd(a, p)..] + t, p, c)
  {
    assert (a + t)[0] == a[0];
    if p(a[0]) {
      RunEndJoin(a, t, 0, p);
    }
    DropAppend(a, t, PieceEnd(a, p));
  }

  lemma {:induction false} CollapseRunsConcat(a: string, t: string, p: char -> bool, c: char)
    requires p(c)
    requires (t != [] && !p(t[0])) || (a != [] && !p(a[|a| - 1]))
    ensures CollapseRuns(a + t, p, c) == CollapseRuns(a, p, c) + CollapseRuns(t, p, c)
    decreases |a|
  {
    if a == [] {
      assert a + t == t;
    } else {
      var j := PieceEnd(a, p);
      assert j < |a| || (t != [] && !p(t[0])) || !p(a[0]) by {
        if p(a[0]) && j == |a| {
          assert All(a, 0, j, p);
          assert p(a[|a| - 1]);
        }
      }
      CollapseRunsHead(a, t, p, c);
      var rest := a[j..];
      assert CollapseRuns(rest + t, p, c) == CollapseRuns(rest, p, c) + CollapseRuns(t, p, c) by {
        if rest == [] {
          assert rest + t == t;
        } else {
          assert rest[|rest| - 1] == a[|a| - 1];
          CollapseRunsConcat(rest, t, p, c);
        }
      }
      var head := if p(a[0]) then [c] else [a[0]];
      assert CollapseRuns(a, p, c) == head + CollapseRuns(rest, p, c);
      AppendAssoc(head, CollapseRuns(rest, p, c), CollapseRuns(t, p, c));
    }
  }

  /** A character outside the class splits the collapsing in two. */
  lemma CollapseRunsSplit(a: string, x: char, b: string, p: char -> bool, c: char)
    requires p(c) && !p(x)
    ensures CollapseRuns(a + [x] + b, p, c) == CollapseRuns(a, p, c) + [x] + CollapseRuns(b, p, c)
  {
    AppendAssoc(a, [x], b);
    CollapseRunsConcat(a, [x] + b, p, c);
    assert ([x] + b)[1..] == b;
    CollapseRunsFirst([x] + b, p, c);
    AppendAssoc(CollapseRuns(a, p, c), [x], CollapseRuns(b, p, c));
  }

  /** A non-empty run of class characters collapses to the single `c`. */
  lemma CollapseRunsOfRun(w: string, p: char -> bool, c: char)
    requires p(c) && w != [] && All(w, 0, |w|, p)
    ensures CollapseRuns(w, p, c) == [c]
  {
    assert RunEnd(w, 0, p) == |w|;
    assert w[|w|..] == [];
  }

  /** A collapsed string keeps the last character of its input when that
      character is outside the class. */
  lemma CollapseRunsLast(u: string, p: char -> bool, c: char)
    requires p(c) && u != [] && !p(u[|u| - 1])
    ensures CollapseRuns(u, p, c) == CollapseRuns(u[..|u| - 1], p, c) + [u[|u| - 1]]
  {
    assert u == u[..|u| - 1] + [u[|u| - 1]] + [];
    CollapseRunsSplit(u[..|u| - 1], u[|u| - 1], [], p, c);
  }

  /** A collapsed string keeps the first character of its input when that
      character is outside the class. */
  lemma CollapseRunsFirst(v: string, p: char -> bool, c: char)
    requires p(c) && v != [] && !p(v[0])
    ensures CollapseRuns(v, p, c) == [v[0]] + CollapseRuns(v[1..], p, c)
  {
  }

  /** A leading run of class characters followed by a character outside
      the class (or nothing) becomes one `c`. */
  lemma CollapseRunsRunThen(w: string, v: string, p: char -> bool, c: char)
    requires p(c) && w != [] && All(w, 0, |w|, p)
    requires v == [] || !p(v[0])
    ensures CollapseRuns(w + v, p, c) == [c] + CollapseRuns(v, p, c)
  {
    CollapseRunsOfRun(w, p, c);
    if v == [] {
      assert w + v == w;
    } else {
      CollapseRunsConcat(w, v, p, c);
    }
  }

  lemma AppendAssoc(a: string, b: string, c: string)
    ensures a + (b + c) == a + b + c
  {
  }

  /** `re.sub`: a run `w` of class characters between two characters outside
      the class (or an end of the string) becomes exactly one `c`. */
  lemma CollapseRunsJoin(u: string, w: string, v: string, p: char -> bool, c: char)
    requires p(c) && w != [] && All(w, 0, |w|, p)
    requires u == [] || !p(u[|u| - 1])
    requires v == [] || !p(v[0])
    ensures CollapseRuns(u + w + v, p, c) == CollapseRuns(u, p, c) + [c] + CollapseRuns(v, p, c)
  {
    var r := CollapseRuns(v, p, c);
    assert CollapseRuns(u + w + v, p, c) == CollapseRuns(u, p, c) + ([c] + r) by {
      AppendAssoc(u, w, v);
      CollapseRunsRunThen(w, v, p, c);
      if u == [] {
        assert u + (w + v) == w + v;
      } else {
        CollapseRunsConcat(u, w + v, p, c);
      }
    }
    AppendAssoc(CollapseRuns(u, p, c), [c], r);
  }

  /** A string that is already collapsed is left as it is. */
  lemma {:induction false} CollapseRunsKeepsCollapsed(s: string, p: char -> bool, c: char)
    requires p(c)
    requires forall k :: 0 <= k < |s| && p(s[k]) ==> s[k] == c
    requires NoAdjacent(s, p)
    ensures CollapseRuns(s, p, c) == s
  {
    if s != [] {
      if p(s[0]) {
        assert RunEnd(s, 0, p) == 1 by {
          assert |s| == 1 || !p(s[1]);
        }
      }
      CollapseRunsKeepsCollapsed(s[1..], p, c);
    }
  }

  /** Where `str.rstrip` of the `p`-characters cuts `s[i..j]`: the end of
      the slice, moved back over its trailing `p`-characters. */
  function RunStartBefore(s: string, i: nat, j: nat, p: char -> bool): (e: nat)
    requires i <= j <= |s|
    ensures i <= e <= j
    ensures All(s, e, j, p)
    ensures e == i || !p(s[e - 1])
    decreases j
  {
    if i < j && p(s[j - 1]) then RunStartBefore(s, i, j - 1, p) else j
  }

  /** Where `str.lstrip` of the `p`-characters cuts `s`. */
  function TrimFrom(s: string, p: char -> bool): (i: nat)
    ensures i <= |s| && All(s, 0, i, p)
  {
    RunEnd(s, 0, p)
  }

  /** Where `str.rstrip` of the `p`-characters cuts what `str.lstrip` left. */
  function TrimTo(s: string, p: char -> bool): (j: nat)
    ensures TrimFrom(s, p) <= j <= |s| && All(s, j, |s|, p)
  {
    RunStartBefore(s, TrimFrom(s, p), |s|, p)
  }

  /** `str.strip`: the slice of `s` left once the `p`-characters at both ends
      are removed. */
  function Trim(s: string, p: char -> bool): (r: string)
    ensures r == s[TrimFrom(s, p)..TrimTo(s, p)]
    ensures r == [] || (!p(r[0]) && !p(r[|r| - 1]))
  {
    s[TrimFrom(s, p)..TrimTo(s, p)]
  }

  /** A string with nothing to strip at either end is left as it is. */
  lemma TrimKeepsTrimmed(s: string, p: char -> bool)
    requires s == [] || (!p(s[0]) && !p(s[|s| - 1]))
    ensures Trim(s, p) == s
  {
  }

  /** Scanning back from inside `b` stops inside `b` when `b` starts with a
      character outside the class. */
  lemma {:induction false} RunStartBeforeShift(pre: string, b: string, i: nat, j: nat, p: char -> bool)
    requires i <= |pre| && 0 < j <= |b| && !p(b[0])
    ensures RunStartBefore(pre + b, i, |pre| + j, p) == |pre| + RunStartBefore(b, 0, j, p)
    decreases j
  {
    assert (pre + b)[|pre| + j - 1] == b[j - 1];
    if p(b[j - 1]) {
      RunStartBeforeShift(pre, b, i, j - 1, p);
    }
  }

  /** Stripping a string whose two parts meet at characters that are not
      stripped strips each part and keeps what lies between them. */
  lemma TrimJoin(a: string, sep: string, b: string, p: char -> bool)
    requires a != [] && !p(a[|a| - 1]) && b != [] && !p(b[0])
    ensures Trim(a + sep + b, p) == Trim(a, p) + sep + Trim(b, p)
  {
    var s := a + sep + b;
    var i := TrimFrom(a, p);
    assert i < |a|;
    assert TrimFrom(s, p) == i by {
      AppendAssoc(a, sep, b);
      RunEndJoin(a, sep + b, 0, p);
    }
    assert TrimTo(a, p) == |a|;
    var e := TrimTo(b, p);
    assert TrimTo(s, p) == |a| + |sep| + e by {
      assert TrimFrom(b, p) == 0;
      RunStartBeforeShift(a + sep, b, i, |b|, p);
    }
    SliceJoin(a, sep, b, i, e);
  }

  lemma SliceJoin(a: string, sep: string, b: string, i: nat, e: nat)
    requires i <= |a| && e <= |b|
    ensures (a + sep + b)[i..|a| + |sep| + e] == a[i..] + sep + b[..e]
  {
  }

  /** Collapsing runs and then stripping: a run of class characters between
      two characters outside the class becomes exactly one `c`. */
  lemma CollapseTrimJoin(u: string, w: string, v: string, p: char -> bool, c: char, strip: char -> bool)
    requires p(c) && forall ch :: strip(ch) ==> p(ch)
    requires u != [] && !p(u[|u| - 1]) && v != [] && !p(v[0])
    requires w != [] && All(w, 0, |w|, p)
    ensures Trim(CollapseRuns(u + w + v, p, c), strip)
      == Trim(CollapseRuns(u, p, c), strip) + [c] + Trim(CollapseRuns(v, p, c), strip)
  {
    CollapseRunsJoin(u, w, v, p, c);
    CollapseRunsLast(u, p, c);
    CollapseRunsFirst(v, p, c);
    var a, b := CollapseRuns(u, p, c), CollapseRuns(v, p, c);
    assert a[|a| - 1] == u[|u| - 1];
    TrimJoin(a, [c], b, strip);
  }

  lemma {:induction false} NoAdjacentSlice(s: string, i: nat, j: nat, p: char -> bool)
    requires i <= j <= |s| && NoAdjacent(s, p)
    ensures NoAdjacent(s[i..j], p)
  {
    forall k | 0 <= k < j - i - 1
      ensures !(p(s[i..j][k]) && p(s[i..j][k + 1]))
    {
      assert s[i..j][k] == s[i + k] && s[i..j][k + 1] == s[i + k + 1];
    }
  }

  /** Every `p`-character of `s` is `c` and no two of them are neighbours:
      what `CollapseRuns(_, p, c)` produces. */
  predicate Collapsed(s: string, p: char -> bool, c: char)
  {
    && (forall k :: 0 <= k < |s| && p(s[k]) ==> s[k] == c)
    && NoAdjacent(s, p)
  }

  /** A slice of a collapsed string is collapsed. */
  lemma CollapsedSlice(s: string, i: nat, j: nat, p: char -> bool, c: char)
    requires i <= j <= |s| && Collapsed(s, p, c)
    ensures Collapsed(s[i..j], p, c)
  {
    NoAdjacentSlice(s, i, j, p);
    forall k | 0 <= k < j - i && p(s[i..j][k]) ensures s[i..j][k] == c {
      assert s[i..j][k] == s[i + k];
    }
  }

  /** Stripping any characters off the ends of a collapsed string leaves it collapsed. */
  lemma TrimCollapsed(s: string, strip: char -> bool, p: char -> bool, c: char)
    requires Collapsed(s, p, c)
    ensures Collapsed(Trim(s, strip), p, c)
  {
    var r := Trim(s, strip);
    var i := TrimFrom(s, strip);
    CollapsedSlice(s, i, i + |r|, p, c);
  }

  /** What trimming removes satisfies `strip`, hence `p`, so the other
      characters survive. */
  lemma {:induction false} WithoutTrim(s: string, strip: char -> bool, p: char -> bool)
    requires forall c :: strip(c) ==> p(c)
    ensures Without(Trim(s, strip), p) == Without(s, p)
  {
    var r := Trim(s, strip);
    var i := TrimFrom(s, strip);
    var front, back := s[..i], s[i + |r|..];
    assert s == front + r + back;
    assert All(front, 0, |front|, p) by {
      forall k | 0 <= k < |front| ensures p(front[k]) {
        assert front[k] == s[k];
      }
    }
    assert All(back, 0, |back|, p) by {
      forall k | 0 <= k < |back| ensures p(back[k]) {
        assert back[k] == s[i + |r| + k];
      }
    }
    WithoutAll(front, p);
    WithoutAll(back, p);
    calc {
      Without(s, p);
      { WithoutConcat(front + r, back, p); }
      Without(front + r, p) + Without(back, p);
      { WithoutConcat(front, r, p); }
      Without(front, p) + Without(r, p) + Without(back, p);
    }
  }

  lemma {:induction false} WithoutAll(s: string, p: char -> bool)
    requires All(s, 0, |s|, p)
    ensures Without(s, p) == []
  {
    if s != [] {
      WithoutAll(s[1..], p);
    }
  }

  /** Python's ordering of `str` values: lexicographic by code point. */
  predicate StrLess(a: string, b: string)
  {
    if a == [] then b != []
    else if b == [] then false
    else a[0] < b[0] || (a[0] == b[0] && StrLess(a[1..], b[1..]))
  }

  lemma {:induction false} StrLessIrreflexive(a: string)
    ensures !StrLess(a, a)
  {
    if a != [] {
      StrLessIrreflexive(a[1..]);
    }
  }

  lemma {:induction false} StrLessTransitive(a: string, b: string, c: string)
    requires StrLess(a, b) && StrLess(b, c)
    ensures StrLess(a, c)
  {
    if a != [] && b != [] && c != [] && a[0] == b[0] == c[0] {
      StrLessTransitive(a[1..], b[1..], c[1..]);
    }
  }

  lemma {:induction false} StrLessTotal(a: string, b: string)
    requires a != b
    ensures StrLess(a, b) || StrLess(b, a)
  {
    if a != [] && b != [] && a[0] == b[0] {
      assert a == [a[0]] + a[1..] && b == [b[0]] + b[1..];
      StrLessTotal(a[1..], b[1..]);
    }
  }
}
