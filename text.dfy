/** String helpers shared by the pipeline: the character classes, prefix and
    suffix tests, Python's `str.split` on one separator, `str.join`, and the
    collapsing of runs of one character that `re.sub(r'c{2,}', 'c', s)` does. */
module Text {

  /** An ASCII decimal digit (what `\d` and `str.isdigit` accept on ASCII). */
  predicate IsDigit(c: char) {
    '0' <= c <= '9'
  }

  /** Python's `s.isdigit()`: non-empty and digits only (ASCII digits). */
  predicate IsDigits(s: string) {
    |s| > 0 && forall i :: 0 <= i < |s| ==> IsDigit(s[i])
  }

  predicate StartsWith(s: string, p: string) {
    |p| <= |s| && s[..|p|] == p
  }

  predicate EndsWith(s: string, p: string) {
    |p| <= |s| && s[|s| - |p|..] == p
  }

  /** A prefix or suffix fixes the characters it covers. */
  lemma AffixAt(s: string, p: string, j: nat)
    requires j < |p|
    ensures StartsWith(s, p) ==> s[j] == p[j]
    ensures EndsWith(s, p) ==> s[|s| - |p| + j] == p[j]
  {
    if StartsWith(s, p) {
      assert s[..|p|][j] == s[j];
    }
    if EndsWith(s, p) {
      assert s[|s| - |p|..][j] == s[|s| - |p| + j];
    }
  }

  /** `p in s` for strings: `p` occurs at some offset of `s`. */
  predicate Contains(s: string, p: string) {
    exists k :: 0 <= k <= |s| && StartsWith(s[k..], p)
  }

  /** Python's `s.split(sep)` for a one-character separator: the pieces
      between separators, empty pieces included, always at least one. */
  function Split(s: string, sep: char): (r: seq<string>)
    ensures |r| >= 1
    ensures forall i :: 0 <= i < |r| ==> sep !in r[i]
  {
    if s == [] then [""]
    else
      var rest := Split(s[1..], sep);
      if s[0] == sep then [""] + rest
      else [[s[0]] + rest[0]] + rest[1..]
  }

  /** Python's `sep.join(xs)`. */
  function Join(xs: seq<string>, sep: string): string {
    if |xs| == 0 then ""
    else if |xs| == 1 then xs[0]
    else xs[0] + sep + Join(xs[1..], sep)
  }

  /** Joining a piece in front of at least one more. */
  lemma JoinCons(x: string, ys: seq<string>, sep: string)
    requires |ys| >= 1
    ensures Join([x] + ys, sep) == x + sep + Join(ys, sep)
  {
    assert ([x] + ys)[1..] == ys;
  }

  /** Joining the pieces of a split with the separator gives back the string. */
  lemma {:induction false} JoinSplit(s: string, sep: char)
    ensures Join(Split(s, sep), [sep]) == s
  {
    if s != [] {
      var rest := Split(s[1..], sep);
      JoinSplit(s[1..], sep);
      if s[0] == sep {
        assert Join(Split(s, sep), [sep]) == "" + [sep] + Join(rest, [sep]);
        assert s == [s[0]] + s[1..];
      } else {
        if |rest| == 1 {
          assert Join(Split(s, sep), [sep]) == [s[0]] + rest[0];
        } else {
          assert Join(Split(s, sep), [sep]) == [s[0]] + rest[0] + [sep] + Join(rest[1..], [sep]);
          assert Join(rest, [sep]) == rest[0] + [sep] + Join(rest[1..], [sep]);
        }
        assert s == [s[0]] + s[1..];
      }
    }
  }

  /** A piece without the separator is the start of the first piece. */
  lemma {:induction false} SplitPrefix(x: string, tail: string, sep: char)
    requires sep !in x
    ensures Split(x + tail, sep) == [x + Split(tail, sep)[0]] + Split(tail, sep)[1..]
  {
    if x != [] {
      assert (x + tail)[1..] == x[1..] + tail;
      SplitPrefix(x[1..], tail, sep);
      assert [x[0]] + (x[1..] + Split(tail, sep)[0]) == x + Split(tail, sep)[0];
    } else {
      var r := Split(tail, sep);
      assert x + tail == tail && x + r[0] == r[0];
      assert [r[0]] + r[1..] == r;
    }
  }

  /** Splitting a join of pieces without the separator gives back the
      pieces. */
  lemma {:induction false} SplitJoin(xs: seq<string>, sep: char)
    requires |xs| >= 1 && forall i :: 0 <= i < |xs| ==> sep !in xs[i]
    ensures Split(Join(xs, [sep]), sep) == xs
  {
    if |xs| == 1 {
      SplitPrefix(xs[0], "", sep);
      assert Split("", sep) == [""];
      assert xs[0] + "" == xs[0];
      assert Join(xs, [sep]) == xs[0];
    } else {
      var rest := Join(xs[1..], [sep]);
      SplitJoin(xs[1..], sep);
      assert Join(xs, [sep]) == xs[0] + ([sep] + rest);
      SplitPrefix(xs[0], [sep] + rest, sep);
      assert ([sep] + rest)[1..] == rest;
      assert Split([sep] + rest, sep) == [""] + xs[1..];
      assert xs[0] + "" == xs[0];
      assert xs == [xs[0]] + xs[1..];
    }
  }

  /** A string misses `p` when some character of `p` does not occur in it. */
  lemma MissingCharNotContained(s: string, p: string, j: nat)
    requires j < |p| && p[j] !in s
    ensures !Contains(s, p)
  {
    forall k | 0 <= k <= |s| ensures !StartsWith(s[k..], p) {
      if |p| <= |s[k..]| {
        assert s[k..][..|p|][j] == s[k + j];
        assert s[k + j] in s;
      }
    }
  }

  /** The non-empty strings of `xs`, in order (the generator `s for s in xs if s`). */
  function NonEmpty(xs: seq<string>): (r: seq<string>)
    ensures |r| <= |xs|
    ensures forall i :: 0 <= i < |r| ==> r[i] != "" && r[i] in xs
    ensures forall x :: x in xs && x != "" ==> x in r
  {
    if xs == [] then []
    else if xs[0] == "" then NonEmpty(xs[1..])
    else [xs[0]] + NonEmpty(xs[1..])
  }

  /** The filter works piece by piece: the kept pieces of `a + b` are those
      of `a` followed by those of `b`, so order and repetitions are kept. */
  lemma {:induction false} NonEmptyAppend(a: seq<string>, b: seq<string>)
    ensures NonEmpty(a + b) == NonEmpty(a) + NonEmpty(b)
    decreases |a|
  {
    if a == [] {
      assert a + b == b;
    } else {
      assert (a + b)[0] == a[0] && (a + b)[1..] == a[1..] + b;
      NonEmptyAppend(a[1..], b);
    }
  }

  /** `' '.join(s for s in xs if s)` is empty exactly when every piece is. */
  lemma {:induction false} JoinNonEmptyIsEmpty(xs: seq<string>)
    ensures Join(NonEmpty(xs), " ") == "" <==> forall i :: 0 <= i < |xs| ==> xs[i] == ""
  {
    var ys := NonEmpty(xs);
    if ys == [] {
      forall i | 0 <= i < |xs| ensures xs[i] == "" {
        assert xs[i] in xs;
      }
    } else {
      assert ys[0] != "" && ys[0] in xs;
      if |ys| > 1 {
        assert |Join(ys, " ")| >= |ys[0]|;
      }
    }
  }

  /** Every run of two or more `c` becomes a single `c`
      (`re.sub(c + '{2,}', c, s)`); every other character is kept. */
  function CollapseRuns(s: string, c: char): (r: string)
    ensures |r| <= |s|
    ensures NoDoubled(r, c)
    ensures Without(r, c) == Without(s, c)
  {
    if |s| <= 1 then s
    else if s[0] == c && s[1] == c then CollapseRuns(s[1..], c)
    else [s[0]] + CollapseRuns(s[1..], c)
  }

  /** Collapsing keeps the first and the last character. */
  lemma {:induction false} CollapseRunsEnds(s: string, c: char)
    requires |s| > 0
    ensures |CollapseRuns(s, c)| > 0
    ensures CollapseRuns(s, c)[0] == s[0]
    ensures CollapseRuns(s, c)[|CollapseRuns(s, c)| - 1] == s[|s| - 1]
  {
    if |s| > 1 {
      CollapseRunsEnds(s[1..], c);
    }
  }

  /** No two adjacent copies of `c` in `s`. */
  predicate NoDoubled(s: string, c: char) {
    forall i :: 0 <= i < |s| - 1 ==> !(s[i] == c && s[i + 1] == c)
  }

  /** `s` with every `c` removed. */
  function Without(s: string, c: char): (r: string)
    ensures |r| <= |s|
    ensures c !in r
  {
    if s == [] then []
    else if s[0] == c then Without(s[1..], c)
    else [s[0]] + Without(s[1..], c)
  }

  /** A string that has no run to collapse is left as it is; hence collapsing
      twice is collapsing once. */
  lemma {:induction false} CollapseRunsIdentity(s: string, c: char)
    requires NoDoubled(s, c)
    ensures CollapseRuns(s, c) == s
  {
    if |s| > 1 {
      assert NoDoubled(s[1..], c) by {
        forall i | 0 <= i < |s[1..]| - 1 ensures !(s[1..][i] == c && s[1..][i + 1] == c) {
          assert s[1..][i] == s[i + 1] && s[1..][i + 1] == s[i + 2];
        }
      }
      CollapseRunsIdentity(s[1..], c);
      assert !(s[0] == c && s[1] == c);
      assert s == [s[0]] + s[1..];
    }
  }

  /** Two adjacent `c` collapse into one wherever they occur, so every run of
      `c` becomes a single `c` in place. */
  lemma {:induction false} CollapseRunsPair(a: string, b: string, c: char)
    ensures CollapseRuns(a + [c, c] + b, c) == CollapseRuns(a + [c] + b, c)
    decreases |a|
  {
    var s1, s2 := a + [c, c] + b, a + [c] + b;
    if a == [] {
      assert s1[1..] == s2;
    } else {
      var a' := a[1..];
      assert s1[0] == a[0] == s2[0];
      assert s1[1..] == a' + [c, c] + b && s2[1..] == a' + [c] + b;
      assert s1[1] == s2[1];
      CollapseRunsPair(a', b, c);
    }
  }

  /** Collapsing a string one character longer at the front. */
  lemma CollapseRunsCons(h: char, s: string, c: char)
    ensures CollapseRuns([h] + s, c) ==
            if |s| > 0 && h == c && s[0] == c then CollapseRuns(s, c) else [h] + CollapseRuns(s, c)
  {
    var t := [h] + s;
    assert t[0] == h && t[1..] == s;
    if s == [] {
      assert t == [h];
    } else {
      assert t[1] == s[0];
    }
  }

  /** Where no run of `c` straddles the seam, collapsing a concatenation
      collapses each side. */
  lemma {:induction false} CollapseRunsAppend(x: string, y: string, c: char)
    requires !(|x| > 0 && |y| > 0 && x[|x| - 1] == c && y[0] == c)
    ensures CollapseRuns(x + y, c) == CollapseRuns(x, c) + CollapseRuns(y, c)
    decreases |x|
  {
    if x == [] {
      assert x + y == y;
    } else {
      var h, x' := x[0], x[1..];
      assert x == [h] + x';
      assert x + y == [h] + (x' + y);
      CollapseRunsCons(h, x' + y, c);
      CollapseRunsCons(h, x', c);
      CollapseRunsAppend(x', y, c);
      var a, b := CollapseRuns(x', c), CollapseRuns(y, c);
      if x' == [] {
        assert x' + y == y;
        assert a == [];
      } else {
        assert (x' + y)[0] == x'[0];
      }
      AppendAssoc([h], a, b);
    }
  }

  /** A single character between two sides that do not touch it with a `c`
      splits the collapse. */
  lemma CollapseRunsAround(x: string, d: char, y: string, c: char)
    requires |x| > 0 ==> x[|x| - 1] != c
    requires |y| > 0 ==> y[0] != c
    ensures CollapseRuns(x + [d] + y, c) == CollapseRuns(x, c) + [d] + CollapseRuns(y, c)
  {
    AppendAssoc(x, [d], y);
    CollapseRunsAppend([d], y, c);
    CollapseRunsAppend(x, [d] + y, c);
    assert CollapseRuns([d], c) == [d];
    AppendAssoc(CollapseRuns(x, c), [d], CollapseRuns(y, c));
  }

  /** Concatenation regrouped, stated apart from any other context. */
  lemma AppendAssoc(p: string, q: string, r: string)
    ensures p + (q + r) == (p + q) + r
  {
  }

  /** A prefix of a string without doubled `c` has none either. */
  lemma NoDoubledPrefix(s: string, c: char, n: nat)
    requires NoDoubled(s, c) && n <= |s|
    ensures NoDoubled(s[..n], c)
  {
    forall i | 0 <= i < n - 1 ensures !(s[..n][i] == c && s[..n][i + 1] == c) {
      assert s[..n][i] == s[i] && s[..n][i + 1] == s[i + 1];
    }
  }

  /** Character replacement works piece by piece. */
  lemma {:induction false} ReplaceCharAppend(s: string, u: string, a: char, b: char)
    ensures ReplaceChar(s + u, a, b) == ReplaceChar(s, a, b) + ReplaceChar(u, a, b)
    decreases |s|
  {
    if s == [] {
      assert s + u == u;
    } else {
      assert (s + u)[0] == s[0] && (s + u)[1..] == s[1..] + u;
      ReplaceCharAppend(s[1..], u, a, b);
    }
  }

  /** Every `a` in `s` becomes `b` (`s.replace(a, b)` for single characters). */
  function ReplaceChar(s: string, a: char, b: char): (r: string)
    ensures |r| == |s|
    ensures forall i :: 0 <= i < |s| ==> r[i] == (if s[i] == a then b else s[i])
  {
    if s == [] then [] else [if s[0] == a then b else s[0]] + ReplaceChar(s[1..], a, b)
  }
}
