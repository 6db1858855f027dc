/** The two Python string builtins that the mention handler relies on:
    `str.replace(old, new)` (every non-overlapping occurrence, scanned left to
    right) and `str.strip()` with no argument (whitespace at both ends). */
module PyStr {

  datatype Option<T> = None | Some(value: T)

  // ---------------------------------------------------------------------------
  // Whitespace
  // ---------------------------------------------------------------------------

  /** The characters for which Python's `str.isspace()` holds, the set that
      `str.strip()` removes when called without an argument. */
  predicate IsWs(c: char) {
    ('\t' <= c <= '\r') || ('\U{1C}' <= c <= '\U{1F}') || c == ' ' ||
    c == '\U{85}' || c == '\U{A0}' || c == '\U{1680}' ||
    ('\U{2000}' <= c <= '\U{200A}') || c == '\U{2028}' || c == '\U{2029}' ||
    c == '\U{202F}' || c == '\U{205F}' || c == '\U{3000}'
  }

  /** Number of whitespace characters at the front of `s`. */
  function LeadingWs(s: string): (k: nat)
    ensures k <= |s|
    ensures forall i :: 0 <= i < k ==> IsWs(s[i])
    ensures k < |s| ==> !IsWs(s[k])
  {
    if s == [] || !IsWs(s[0]) then 0 else 1 + LeadingWs(s[1..])
  }

  /** Number of whitespace characters at the back of `s`. */
  function TrailingWs(s: string): (k: nat)
    ensures k <= |s|
    ensures forall i :: |s| - k <= i < |s| ==> IsWs(s[i])
    ensures k < |s| ==> !IsWs(s[|s| - 1 - k])
  {
    if s == [] || !IsWs(s[|s| - 1]) then 0 else 1 + TrailingWs(s[..|s| - 1])
  }

  /** Python's `s.strip()`: drop the leading whitespace, then the trailing
      whitespace of what is left. */
  function Strip(s: string): (r: string)
    ensures |r| <= |s|
    ensures r == [] || (!IsWs(r[0]) && !IsWs(r[|r| - 1]))
  {
    var t := s[LeadingWs(s)..];
    t[..|t| - TrailingWs(t)]
  }

  /** A slice `s[i..j]` is the stripped form of `s` when everything outside it
      is whitespace and it neither starts nor ends with whitespace. */
  ghost predicate IsStrippedSlice(s: string, i: int, j: int) {
    0 <= i <= j <= |s| &&
    (forall k :: 0 <= k < i ==> IsWs(s[k])) &&
    (forall k :: j <= k < |s| ==> IsWs(s[k])) &&
    (i < j ==> !IsWs(s[i]) && !IsWs(s[j - 1]))
  }

  /** The leading whitespace run is determined by its end. */
  lemma LeadingWsAt(s: string, i: nat)
    requires i <= |s|
    requires forall k :: 0 <= k < i ==> IsWs(s[k])
    requires i < |s| ==> !IsWs(s[i])
    ensures LeadingWs(s) == i
  {
  }

  /** The trailing whitespace run is determined by its start. */
  lemma TrailingWsAt(s: string, j: nat)
    requires j <= |s|
    requires forall k :: j <= k < |s| ==> IsWs(s[k])
    requires 0 < j ==> !IsWs(s[j - 1])
    ensures TrailingWs(s) == |s| - j
  {
  }

  /** `Strip` returns exactly the slice described by `IsStrippedSlice`, and
      there is only one such slice: the two definitions agree on every input. */
  lemma StripIsStrippedSlice(s: string, i: int, j: int)
    requires IsStrippedSlice(s, i, j)
    ensures Strip(s) == s[i..j]
  {
    if i == j {
      // everything is whitespace, so the leading run covers all of `s`
      LeadingWsAt(s, |s|);
    } else {
      LeadingWsAt(s, i);
      SuffixOfSliceWs(s, i, j);
      assert s[i..][j - i - 1] == s[j - 1];
      TrailingWsAt(s[i..], j - i);
      StripTrailingPart(s, i, |s| - j);
    }
  }

  /** The back of the whole string is the back of a suffix. */
  lemma SuffixOfSliceWs(s: string, i: nat, j: nat)
    requires i <= j <= |s|
    requires forall k :: j <= k < |s| ==> IsWs(s[k])
    ensures forall k :: j - i <= k < |s| - i ==> IsWs(s[i..][k])
  {
    forall k | j - i <= k < |s| - i ensures IsWs(s[i..][k]) {
      assert s[i..][k] == s[i + k];
    }
  }

  /** The strip of `s` exists as a slice of `s` with whitespace all around it. */
  lemma StripSlice(s: string)
    ensures IsStrippedSlice(s, LeadingWs(s), LeadingWs(s) + |Strip(s)|)
    ensures Strip(s) == s[LeadingWs(s)..LeadingWs(s) + |Strip(s)|]
  {
    var a := LeadingWs(s);
    var b := TrailingWs(s[a..]);
    StripTrailingPart(s, a, b);
    var r := Strip(s);
    var j := |s| - b;
    assert |r| == j - a;
    if a < j {
      assert r[0] == s[a];
      assert r[|r| - 1] == s[j - 1];
    }
  }

  /** What the strip drops at the back of `s` is whitespace, and what it keeps
      is a slice of `s`. */
  lemma StripTrailingPart(s: string, a: nat, b: nat)
    requires a == LeadingWs(s) && b == TrailingWs(s[a..])
    ensures Strip(s) == s[a..|s| - b]
    ensures forall k :: |s| - b <= k < |s| ==> IsWs(s[k])
  {
    assert Strip(s) == s[a..][..|s| - a - b];
    SliceOfSuffix(s, a, b);
    SuffixWs(s, a, b);
  }

  /** A prefix of a suffix is a middle slice. */
  lemma SliceOfSuffix(s: string, a: nat, b: nat)
    requires a + b <= |s|
    ensures s[a..][..|s| - a - b] == s[a..|s| - b]
  {
  }

  /** The back of a suffix is the back of the whole string. */
  lemma SuffixWs(s: string, a: nat, b: nat)
    requires a + b <= |s|
    requires forall i :: |s| - a - b <= i < |s| - a ==> IsWs(s[a..][i])
    ensures forall k :: |s| - b <= k < |s| ==> IsWs(s[k])
  {
    forall k | |s| - b <= k < |s| ensures IsWs(s[k]) {
      assert s[k] == s[a..][k - a];
    }
  }

  /** Stripping twice is stripping once. */
  lemma StripIdempotent(s: string)
    ensures Strip(Strip(s)) == Strip(s)
  {
    var r := Strip(s);
    StripIsStrippedSlice(r, 0, |r|);
  }

  /** A string with no whitespace at either end is left as it is. */
  lemma StripNoOuterWs(s: string)
    requires s == [] || (!IsWs(s[0]) && !IsWs(s[|s| - 1]))
    ensures Strip(s) == s
  {
    StripIsStrippedSlice(s, 0, |s|);
  }

  /** A whitespace character added at the front disappears in the strip. */
  lemma StripLeadingWs(c: char, s: string)
    requires IsWs(c)
    ensures Strip([c] + s) == Strip(s)
  {
    var cs := [c] + s;
    assert cs[1..] == s;
    assert LeadingWs(cs) == 1 + LeadingWs(s);
    assert cs[LeadingWs(cs)..] == s[LeadingWs(s)..];
  }

  // ---------------------------------------------------------------------------
  // Occurrences and replacement
  // ---------------------------------------------------------------------------

  /** `pat` occurs in `s` starting at index `i`. */
  predicate OccursAt(s: string, pat: string, i: int) {
    0 <= i && i + |pat| <= |s| && s[i..i + |pat|] == pat
  }

  ghost predicate Occurs(s: string, pat: string) {
    exists i :: OccursAt(s, pat, i)
  }

  /** Occurrences in a suffix are occurrences in the whole string, shifted. */
  lemma OccursAtShift(s: string, pat: string, d: nat, i: int)
    requires d <= |s|
    requires 0 <= i
    ensures OccursAt(s[d..], pat, i) <==> OccursAt(s, pat, i + d)
  {
    if 0 <= i && i + |pat| <= |s| - d {
      assert s[d..][i..i + |pat|] == s[i + d..i + d + |pat|];
    }
  }

  /** One mismatching character rules out an occurrence. */
  lemma NotOccursAtMismatch(s: string, pat: string, i: nat, k: nat)
    requires k < |pat| && i + k < |s|
    requires s[i + k] != pat[k]
    ensures !OccursAt(s, pat, i)
  {
    if i + |pat| <= |s| {
      assert s[i..i + |pat|][k] == s[i + k];
    }
  }

  /** The scan of `s.replace(pat, rep)` from index `k` on: at each position it
      either replaces an occurrence and jumps past it, or copies one character
      and moves one on. */
  function ReplaceFrom(s: string, pat: string, rep: string, k: nat): string
    requires pat != [] && k <= |s|
    decreases |s| - k
  {
    if |s| - k < |pat| then s[k..]
    else if OccursAt(s, pat, k) then rep + ReplaceFrom(s, pat, rep, k + |pat|)
    else [s[k]] + ReplaceFrom(s, pat, rep, k + 1)
  }

  /** Python's `s.replace(pat, rep)` for a non-empty `pat`: one left-to-right
      pass over `s` that replaces each occurrence it meets and resumes after
      it. */
  function ReplaceAll(s: string, pat: string, rep: string): string
    requires pat != []
  {
    ReplaceFrom(s, pat, rep, 0)
  }

  /** Number of occurrences the scan from `k` replaces. */
  function CountFrom(s: string, pat: string, k: nat): nat
    requires pat != [] && k <= |s|
    decreases |s| - k
  {
    if |s| - k < |pat| then 0
    else if OccursAt(s, pat, k) then 1 + CountFrom(s, pat, k + |pat|)
    else CountFrom(s, pat, k + 1)
  }

  /** Number of occurrences that `ReplaceAll` replaces. */
  function CountReplaced(s: string, pat: string): nat
    requires pat != []
  {
    CountFrom(s, pat, 0)
  }

  /** Index of the leftmost occurrence of `pat` at or after `k`
      (Python's `s.find(pat, k)`). */
  function FindFrom(s: string, pat: string, k: nat): (r: Option<nat>)
    requires pat != [] && k <= |s|
    ensures r.Some? ==> k <= r.value && OccursAt(s, pat, r.value)
    ensures r.Some? ==> forall j :: k <= j < r.value ==> !OccursAt(s, pat, j)
    ensures r.None? ==> forall j :: k <= j ==> !OccursAt(s, pat, j)
    decreases |s| - k
  {
    if |s| - k < |pat| then None
    else if OccursAt(s, pat, k) then Some(k)
    else FindFrom(s, pat, k + 1)
  }

  /** Reference definition of the replacement as CPython's implementation of
      `str.replace` builds its result: find the leftmost occurrence from the
      current position, replace it, and continue after it. */
  function ReplaceByFind(s: string, pat: string, rep: string, k: nat): string
    requires pat != [] && k <= |s|
    decreases |s| - k
  {
    match FindFrom(s, pat, k)
    case None => s[k..]
    case Some(i) => s[k..i] + rep + ReplaceByFind(s, pat, rep, i + |pat|)
  }

  /** Characters before the next occurrence are copied unchanged. */
  lemma {:induction false} ReplaceFromSkips(s: string, pat: string, rep: string, k: nat, i: nat)
    requires pat != [] && k <= i <= |s|
    requires forall j :: k <= j < i ==> !OccursAt(s, pat, j)
    ensures ReplaceFrom(s, pat, rep, k) == s[k..i] + ReplaceFrom(s, pat, rep, i)
    decreases i - k
  {
    if k == i {
      assert s[k..i] == [];
    } else {
      ReplaceFromSkips(s, pat, rep, k + 1, i);
      ReplaceFromSkipsStep(s, pat, rep, k, i);
    }
  }

  /** One step of `ReplaceFromSkips`: a position that is not an occurrence is
      copied. */
  lemma ReplaceFromSkipsStep(s: string, pat: string, rep: string, k: nat, i: nat)
    requires pat != [] && k < i <= |s|
    requires !OccursAt(s, pat, k)
    requires ReplaceFrom(s, pat, rep, k + 1) == s[k + 1..i] + ReplaceFrom(s, pat, rep, i)
    ensures ReplaceFrom(s, pat, rep, k) == s[k..i] + ReplaceFrom(s, pat, rep, i)
  {
    var x := ReplaceFrom(s, pat, rep, i);
    if |s| - k < |pat| {
      assert x == s[i..];
      assert s[k..i] + s[i..] == s[k..];
    } else {
      assert [s[k]] + s[k + 1..i] == s[k..i];
      assert [s[k]] + (s[k + 1..i] + x) == ([s[k]] + s[k + 1..i]) + x;
    }
  }

  /** From `k`, the scan replaces the next occurrence, at `i`, and resumes
      after it. */
  lemma ReplaceFromAtNext(s: string, pat: string, rep: string, k: nat, i: nat)
    requires pat != [] && k <= i
    requires OccursAt(s, pat, i)
    requires forall j :: k <= j < i ==> !OccursAt(s, pat, j)
    ensures ReplaceFrom(s, pat, rep, k) == s[k..i] + rep + ReplaceFrom(s, pat, rep, i + |pat|)
  {
    ReplaceFromSkips(s, pat, rep, k, i);
  }

  /** From `k` on, text without occurrences is copied unchanged. */
  lemma ReplaceFromNoOccurrence(s: string, pat: string, rep: string, k: nat)
    requires pat != [] && k <= |s|
    requires forall j :: k <= j ==> !OccursAt(s, pat, j)
    ensures ReplaceFrom(s, pat, rep, k) == s[k..]
  {
    ReplaceFromSkips(s, pat, rep, k, |s|);
    assert s[k..|s|] == s[k..];
  }

  /** Text in which `pat` does not occur is returned unchanged. */
  lemma ReplaceAllNoOccurrence(s: string, pat: string, rep: string)
    requires pat != []
    requires !Occurs(s, pat)
    ensures ReplaceAll(s, pat, rep) == s
  {
    ReplaceFromNoOccurrence(s, pat, rep, 0);
  }

  /** The one-pass scan replaces exactly the occurrences found by repeatedly
      taking the leftmost one and resuming after it. */
  lemma {:induction false} ReplaceFromIsLeftmostNonOverlapping(s: string, pat: string, rep: string, k: nat)
    requires pat != [] && k <= |s|
    ensures ReplaceFrom(s, pat, rep, k) == ReplaceByFind(s, pat, rep, k)
    decreases |s| - k
  {
    var f := FindFrom(s, pat, k);
    if f.None? {
      ReplaceFromNoOccurrence(s, pat, rep, k);
    } else {
      var i := f.value;
      ReplaceFromIsLeftmostNonOverlapping(s, pat, rep, i + |pat|);
      var x := ReplaceFrom(s, pat, rep, i + |pat|);
      assert ReplaceByFind(s, pat, rep, k) == s[k..i] + rep + x;
      ReplaceFromAtNext(s, pat, rep, k, i);
    }
  }

  /** `ReplaceAll` agrees with the find-and-resume reference on every input. */
  lemma ReplaceAllIsLeftmostNonOverlapping(s: string, pat: string, rep: string)
    requires pat != []
    ensures ReplaceAll(s, pat, rep) == ReplaceByFind(s, pat, rep, 0)
  {
    ReplaceFromIsLeftmostNonOverlapping(s, pat, rep, 0);
  }

  /** When the first occurrence of `pat` in `a + pat + b` is the one between
      `a` and `b`, and `b` is too short to hold another, only that one is
      replaced. */
  lemma ReplaceAllAround(a: string, pat: string, b: string, rep: string)
    requires pat != []
    requires forall j :: 0 <= j < |a| ==> !OccursAt(a + pat + b, pat, j)
    requires |b| < |pat|
    ensures ReplaceAll(a + pat + b, pat, rep) == a + rep + b
  {
    var s := a + pat + b;
    assert s[|a|..|a| + |pat|] == pat;
    ReplaceFromAtNext(s, pat, rep, 0, |a|);
    assert s[0..|a|] == a;
    assert s[|a| + |pat|..] == b;
  }

  /** When `pat` occurs in `s` only at `i`, exactly that occurrence is
      replaced. */
  lemma ReplaceAllOnlyAt(s: string, pat: string, rep: string, i: nat)
    requires pat != []
    requires OccursAt(s, pat, i)
    requires forall j :: j != i ==> !OccursAt(s, pat, j)
    ensures ReplaceAll(s, pat, rep) == s[..i] + rep + s[i + |pat|..]
  {
    ReplaceFromAtNext(s, pat, rep, 0, i);
    ReplaceFromNoOccurrence(s, pat, rep, i + |pat|);
    assert s[0..i] == s[..i];
  }

  /** The same, for `pat` written out between `a` and `b`. */
  lemma ReplaceAllOnce(a: string, pat: string, b: string, rep: string)
    requires pat != []
    requires forall j :: j != |a| ==> !OccursAt(a + pat + b, pat, j)
    ensures ReplaceAll(a + pat + b, pat, rep) == a + rep + b
  {
    var s := a + pat + b;
    assert s[|a|..|a| + |pat|] == pat;
    ReplaceAllOnlyAt(s, pat, rep, |a|);
    assert s[..|a|] == a;
    assert s[|a| + |pat|..] == b;
  }

  /** Length after the scan from `k`: each of the replaced occurrences trades
      `|pat|` characters for `|rep|`. */
  lemma {:induction false} ReplaceFromLength(s: string, pat: string, rep: string, k: nat)
    requires pat != [] && k <= |s|
    ensures |ReplaceFrom(s, pat, rep, k)| == |s| - k - CountFrom(s, pat, k) * |pat| + CountFrom(s, pat, k) * |rep|
    decreases |s| - k
  {
    var c := CountFrom(s, pat, k);
    if |s| - k < |pat| {
      assert c == 0;
    } else if OccursAt(s, pat, k) {
      ReplaceFromLength(s, pat, rep, k + |pat|);
      MulSucc(CountFrom(s, pat, k + |pat|), |pat|);
      MulSucc(CountFrom(s, pat, k + |pat|), |rep|);
    } else {
      ReplaceFromLength(s, pat, rep, k + 1);
    }
  }

  lemma MulSucc(c: int, p: int)
    ensures (1 + c) * p == p + c * p
  {
  }

  /** Length after replacement: each of the `k` replaced occurrences trades
      `|pat|` characters for `|rep|`. */
  lemma ReplaceAllLength(s: string, pat: string, rep: string)
    requires pat != []
    ensures |ReplaceAll(s, pat, rep)| == |s| - CountReplaced(s, pat) * |pat| + CountReplaced(s, pat) * |rep|
  {
    ReplaceFromLength(s, pat, rep, 0);
  }

  /** The scan from `k` replaces something exactly when `pat` occurs at or
      after `k`. */
  lemma {:induction false} CountFromPositiveIff(s: string, pat: string, k: nat)
    requires pat != [] && k <= |s|
    ensures CountFrom(s, pat, k) > 0 <==> exists j :: k <= j && OccursAt(s, pat, j)
    decreases |s| - k
  {
    if |s| - k < |pat| {
      assert forall j :: k <= j ==> !OccursAt(s, pat, j);
    } else if OccursAt(s, pat, k) {
    } else {
      CountFromPositiveIff(s, pat, k + 1);
      if exists j :: k <= j && OccursAt(s, pat, j) {
        var j :| k <= j && OccursAt(s, pat, j);
        assert k + 1 <= j;
      }
    }
  }

  /** Some occurrence is replaced exactly when the pattern occurs at all. */
  lemma CountReplacedPositiveIff(s: string, pat: string)
    requires pat != []
    ensures CountReplaced(s, pat) > 0 <==> Occurs(s, pat)
  {
    CountFromPositiveIff(s, pat, 0);
  }

  /** `a` is obtained from `b` by deleting characters: order is kept. */
  ghost predicate IsSubsequence(a: string, b: string)
    decreases |b|
  {
    a == [] ||
    (b != [] && ((a[0] == b[0] && IsSubsequence(a[1..], b[1..])) || IsSubsequence(a, b[1..])))
  }

  lemma {:induction false} SubsequenceOfSuffix(a: string, b: string, d: nat)
    requires d <= |b|
    requires IsSubsequence(a, b[d..])
    ensures IsSubsequence(a, b)
    decreases d
  {
    if d > 0 {
      assert b[1..][d - 1..] == b[d..];
      SubsequenceOfSuffix(a, b[1..], d - 1);
    }
  }

  lemma {:induction false} SubsequenceOfSelf(s: string)
    ensures IsSubsequence(s, s)
    decreases |s|
  {
    if s != [] { SubsequenceOfSelf(s[1..]); }
  }

  /** Removing occurrences (`rep` empty) from `k` on only deletes characters:
      what remains keeps its original order. */
  lemma {:induction false} RemoveFromKeepsOrder(s: string, pat: string, k: nat)
    requires pat != [] && k <= |s|
    ensures IsSubsequence(ReplaceFrom(s, pat, "", k), s[k..])
    decreases |s| - k
  {
    var r := ReplaceFrom(s, pat, "", k);
    if |s| - k < |pat| {
      SubsequenceOfSelf(s[k..]);
    } else if OccursAt(s, pat, k) {
      RemoveFromKeepsOrder(s, pat, k + |pat|);
      assert r == ReplaceFrom(s, pat, "", k + |pat|);
      assert s[k..][|pat|..] == s[k + |pat|..];
      SubsequenceOfSuffix(r, s[k..], |pat|);
    } else {
      RemoveFromKeepsOrder(s, pat, k + 1);
      assert s[k..][1..] == s[k + 1..];
      assert r[0] == s[k..][0] && r[1..] == ReplaceFrom(s, pat, "", k + 1);
    }
  }

  /** Removing occurrences only deletes characters: what remains keeps its
      original order. */
  lemma RemoveAllKeepsOrder(s: string, pat: string)
    requires pat != []
    ensures IsSubsequence(ReplaceAll(s, pat, ""), s)
  {
    RemoveFromKeepsOrder(s, pat, 0);
    assert s[0..] == s;
  }
}
