/** Operand clean-up: `filter_suffix_parts` drops noise tokens from the
    operand fields, `truncate_suffix_elements` collapses runs of `+` and caps
    each token at 120 characters. Both build their result list in a loop. */
module SuffixClean {
  import opened Text

  /** Tokens dropped by exact value. */
  const NoiseTokens: set<string> := {",", "<array>", "<false>", "<true>", "''", " ", "  "}

  /** `re.match(r'^[!$~]\d+', t)`: a VLD temporary or compiled variable. */
  predicate IsTemporary(t: string) {
    |t| >= 2 && (t[0] == '!' || t[0] == '$' || t[0] == '~') && IsDigit(t[1])
  }

  /** `re.match(r'^->\d+$', t)`: a bare jump target. */
  predicate IsJumpTarget(t: string) {
    StartsWith(t, "->") && IsDigits(t[2..])
  }

  /** `re.match(r'.*,->\d+$', t)`: ends with `,->` and digits. */
  predicate EndsWithJumpTarget(t: string) {
    exists k :: 0 <= k <= |t| && StartsWith(t[k..], ",->") && IsDigits(t[k..][3..])
  }

  /** The leaked input path fragment. */
  const SamplesPath: string := "%2Fsamples"

  /** The five skip tests of `filter_suffix_parts`, in order. */
  predicate IsNoise(t: string) {
    IsTemporary(t) || t in NoiseTokens || IsJumpTarget(t) || EndsWithJumpTarget(t)
    || Contains(t, SamplesPath)
  }

  /** The tokens of `parts` that are not noise, in their order. */
  function Kept(parts: seq<string>): (r: seq<string>)
    ensures |r| <= |parts|
    ensures forall i :: 0 <= i < |r| ==> r[i] in parts && !IsNoise(r[i])
    ensures forall t :: t in parts && !IsNoise(t) ==> t in r
  {
    if parts == [] then []
    else
      var init := parts[..|parts| - 1];
      var last := parts[|parts| - 1];
      assert forall t :: t in parts ==> t in init || t == last;
      Kept(init) + (if IsNoise(last) then [] else [last])
  }

  /** Filtering a concatenation filters each part: kept tokens keep their
      relative order and each depends on its own value only. */
  lemma {:induction false} KeptAppend(a: seq<string>, b: seq<string>)
    ensures Kept(a + b) == Kept(a) + Kept(b)
    decreases |b|
  {
    if b == [] {
      assert a + b == a;
    } else {
      var b' := b[..|b| - 1];
      assert (a + b)[..|a + b| - 1] == a + b';
      assert (a + b)[|a + b| - 1] == b[|b| - 1];
      KeptAppend(a, b');
    }
  }

  /** `filter_suffix_parts(suffix_parts)`. */
  method FilterSuffixParts(parts: seq<string>) returns (filtered: seq<string>)
    ensures filtered == Kept(parts)
  {
    filtered := [];
    for i := 0 to |parts|
      invariant filtered == Kept(parts[..i])
    {
      assert parts[..i + 1][..i] == parts[..i];
      var part := parts[i];
      if IsTemporary(part) {
        continue;
      }
      if part in NoiseTokens {
        continue;
      }
      if IsJumpTarget(part) {
        continue;
      }
      if EndsWithJumpTarget(part) {
        continue;
      }
      if Contains(part, SamplesPath) {
        continue;
      }
      filtered := filtered + [part];
    }
    assert parts[..|parts|] == parts;
  }

  /** The length cap of `truncate_suffix_elements`. */
  const MaxLength: nat := 120

  /** One token after `truncate_suffix_elements`: runs of `+` collapsed, then
      cut to its first 120 characters. */
  function Truncated(t: string): (r: string)
    ensures |r| <= MaxLength
    ensures NoDoubled(r, '+')
    ensures StartsWith(CollapseRuns(t, '+'), r)
    ensures |CollapseRuns(t, '+')| > MaxLength ==> |r| == MaxLength
    ensures |CollapseRuns(t, '+')| <= MaxLength ==> r == CollapseRuns(t, '+')
  {
    var u := CollapseRuns(t, '+');
    if |u| > MaxLength then
      NoDoubledPrefix(u, '+', MaxLength);
      u[..MaxLength]
    else u
  }

  /** Only the empty token is truncated to nothing. */
  lemma TruncatedEmpty(t: string)
    ensures Truncated(t) == "" <==> t == ""
  {
    if t != "" {
      CollapseRunsEnds(t, '+');
    }
  }

  /** A token without `++` and within the cap is left alone; so truncating
      twice is truncating once. */
  lemma TruncatedFixed(t: string)
    requires |t| <= MaxLength && NoDoubled(t, '+')
    ensures Truncated(t) == t
  {
    CollapseRunsIdentity(t, '+');
  }

  lemma TruncatedIdempotent(t: string)
    ensures Truncated(Truncated(t)) == Truncated(t)
  {
    TruncatedFixed(Truncated(t));
  }

  /** A token longer than the cap without `++` is cut to exactly its first
      120 characters. */
  lemma TruncatedLong(t: string)
    requires |t| > MaxLength && NoDoubled(t, '+')
    ensures Truncated(t) == t[..MaxLength]
  {
    CollapseRunsIdentity(t, '+');
  }

  /** `truncate_suffix_elements(suffix_parts)`: one output token per input
      token, in the same order. */
  method TruncateSuffixElements(parts: seq<string>) returns (truncated: seq<string>)
    ensures |truncated| == |parts|
    ensures forall i :: 0 <= i < |parts| ==> truncated[i] == Truncated(parts[i])
  {
    truncated := [];
    for i := 0 to |parts|
      invariant |truncated| == i
      invariant forall j :: 0 <= j < i ==> truncated[j] == Truncated(parts[j])
    {
      var part := CollapseRuns(parts[i], '+');
      if |part| > MaxLength {
        truncated := truncated + [part[..MaxLength]];
      } else {
        truncated := truncated + [part];
      }
    }
  }
}
