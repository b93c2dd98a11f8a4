/**
 * The handful of Python `str` built-ins the travel router relies on, over
 * ASCII text: `str.lower()`, the `in` substring test, `s.split(sep)[-1]`,
 * `str.strip()`, `str.split()` with no separator and `sep.join(list)`.
 * Each computes the same result as CPython does on ASCII text, and its
 * contract, or the lemma next to it, says what the result means.
 */
module PyStr {

  datatype Option<T> = None | Some(value: T)

  // ---------------------------------------------------------------------------
  // Characters

  /** The ASCII characters Python's `str.isspace()` accepts: tab, line feed,
      vertical tab, form feed, carriage return, the four separators
      U+001C..U+001F and the space. */
  predicate IsSpace(c: char) {
    c == ' ' || ('\t' <= c <= '\r') || ('\U{1C}' <= c <= '\U{1F}')
  }

  predicate AllSpace(s: string) {
    forall i :: 0 <= i < |s| ==> IsSpace(s[i])
  }

  predicate NoSpace(s: string) {
    forall i :: 0 <= i < |s| ==> !IsSpace(s[i])
  }

  predicate IsUpper(c: char) {
    'A' <= c <= 'Z'
  }

  function LowerChar(c: char): char {
    if IsUpper(c) then (c as int - 'A' as int + 'a' as int) as char else c
  }

  // ---------------------------------------------------------------------------
  // str.lower()

  /** `s.lower()`. */
  function Lower(s: string): (r: string)
    ensures |r| == |s|
  {
    if s == [] then [] else [LowerChar(s[0])] + Lower(s[1..])
  }

  /** Lower-casing works character by character: each ASCII capital becomes
      its small letter and every other character stays. */
  lemma {:induction false} LowerAt(s: string)
    ensures forall i :: 0 <= i < |s| ==> Lower(s)[i] == LowerChar(s[i])
  {
    if s != [] {
      LowerAt(s[1..]);
    }
  }

  /** Lower-casing twice is lower-casing once. */
  lemma LowerIdempotent(s: string)
    ensures Lower(Lower(s)) == Lower(s)
  {
  }

  // ---------------------------------------------------------------------------
  // The `in` operator on strings

  /** `p` occurs in `s` starting at index `i`. */
  predicate OccursAt(s: string, p: string, i: int) {
    0 <= i && i + |p| <= |s| && s[i..i + |p|] == p
  }

  /** The leftmost occurrence of `p` in `s` at or after `k`, the scan
      `s.find(p, k)` performs. */
  function FindFrom(s: string, p: string, k: nat): Option<nat>
    requires k <= |s|
    decreases |s| - k
  {
    if OccursAt(s, p, k) then Some(k)
    else if k == |s| then None
    else FindFrom(s, p, k + 1)
  }

  /** The scan finds the leftmost occurrence at or after `k`, and finds
      nothing only when there is none. */
  lemma {:induction false} FindFromLeftmost(s: string, p: string, k: nat)
    requires k <= |s|
    decreases |s| - k
    ensures FindFrom(s, p, k).Some? ==>
              var i := FindFrom(s, p, k).value;
              k <= i <= |s| && OccursAt(s, p, i) && forall j :: k <= j < i ==> !OccursAt(s, p, j)
    ensures FindFrom(s, p, k).None? ==> forall j :: k <= j ==> !OccursAt(s, p, j)
  {
    if !OccursAt(s, p, k) && k < |s| {
      FindFromLeftmost(s, p, k + 1);
    }
  }

  /** `p in s`. */
  function Contains(s: string, p: string): bool {
    FindFrom(s, p, 0).Some?
  }

  /** What Python's `p in s` means: some index of `s` starts an occurrence
      of `p`. */
  ghost predicate Mentions(s: string, p: string) {
    exists i :: OccursAt(s, p, i)
  }

  /** The scan agrees with that meaning, in both directions. */
  lemma ContainsIff(s: string, p: string)
    ensures Contains(s, p) <==> Mentions(s, p)
  {
    FindFromLeftmost(s, p, 0);
  }

  /** An occurrence inside a slice is an occurrence in the whole string. */
  lemma OccursInSlice(s: string, a: int, b: int, p: string, i: int)
    requires 0 <= a <= b <= |s|
    requires OccursAt(s[a..b], p, i)
    ensures OccursAt(s, p, a + i)
  {
    assert i + |p| <= b - a;
    forall k | 0 <= k < |p| ensures s[a + i..a + i + |p|][k] == p[k] {
      assert p[k] == s[a..b][i + k];
    }
  }

  lemma ContainsSlice(s: string, a: int, b: int, p: string)
    requires 0 <= a <= b <= |s|
    requires Contains(s[a..b], p)
    ensures Contains(s, p)
  {
    ContainsIff(s[a..b], p);
    var i :| OccursAt(s[a..b], p, i);
    OccursInSlice(s, a, b, p, i);
    ContainsIff(s, p);
  }

  // ---------------------------------------------------------------------------
  // s.split(sep)[-1]

  /** Where the last piece of `s[k..].split(sep)` starts. CPython's split
      cuts at the leftmost occurrence of `sep` at or after `k` and carries on
      scanning right after that occurrence. */
  function LastPieceStart(s: string, sep: string, k: nat): (r: nat)
    requires sep != [] && k <= |s|
    decreases |s| - k
    ensures k <= r <= |s|
  {
    var found := FindFrom(s, sep, k);
    if found.None? then k
    else
      FindFromLeftmost(s, sep, k);
      LastPieceStart(s, sep, found.value + |sep|)
  }

  /** `s.split(sep)[-1]`. */
  function SplitLast(s: string, sep: string): string
    requires sep != []
  {
    s[LastPieceStart(s, sep, 0)..]
  }

  /** The last piece starts after every occurrence of `sep` from `k` on: it
      starts at `k` when there is none, and right after one otherwise. */
  lemma {:induction false} LastPieceStartSpec(s: string, sep: string, k: nat)
    requires sep != [] && k <= |s|
    decreases |s| - k
    ensures forall j :: LastPieceStart(s, sep, k) <= j ==> !OccursAt(s, sep, j)
    ensures FindFrom(s, sep, k).None? ==> LastPieceStart(s, sep, k) == k
    ensures FindFrom(s, sep, k).Some? ==>
              k + |sep| <= LastPieceStart(s, sep, k)
              && OccursAt(s, sep, LastPieceStart(s, sep, k) - |sep|)
  {
    FindFromLeftmost(s, sep, k);
    var found := FindFrom(s, sep, k);
    if found.Some? {
      LastPieceStartSpec(s, sep, found.value + |sep|);
    }
  }

  /** `s.split(sep)[-1]` holds no `sep`; when `s` holds `sep` an occurrence
      ends right where the piece begins, and otherwise the piece is all of
      `s`. */
  lemma SplitLastPiece(s: string, sep: string)
    requires sep != []
    ensures !Contains(SplitLast(s, sep), sep)
    ensures Contains(s, sep) ==> OccursAt(s, sep, |s| - |SplitLast(s, sep)| - |sep|)
    ensures !Contains(s, sep) ==> SplitLast(s, sep) == s
  {
    LastPieceStartSpec(s, sep, 0);
    var a := LastPieceStart(s, sep, 0);
    var r := s[a..];
    ContainsIff(r, sep);
    if Contains(r, sep) {
      var i :| OccursAt(r, sep, i);
      assert r == s[a..|s|];
      OccursInSlice(s, a, |s|, sep, i);
    }
  }

  /** No proper suffix of `p` is also a prefix of `p`, so two occurrences of
      `p` can never overlap. */
  predicate SelfOverlapFree(p: string) {
    forall k :: 0 < k < |p| ==> p[k..] != p[..|p| - k]
  }

  /** Two occurrences of a self-overlap-free string never overlap. */
  lemma OccurrencesDisjoint(s: string, p: string, i: int, j: int)
    requires SelfOverlapFree(p) && OccursAt(s, p, i) && OccursAt(s, p, j)
    requires i < j
    ensures i + |p| <= j
  {
    if j < i + |p| {
      OverlapIsBorder(s, p, i, j);
    }
  }

  /** Where two occurrences of `p` overlap, the overlap is both a suffix and
      a prefix of `p`. */
  lemma OverlapIsBorder(s: string, p: string, i: int, j: int)
    requires OccursAt(s, p, i) && OccursAt(s, p, j)
    requires i < j < i + |p|
    ensures p[j - i..] == p[..|p| - (j - i)]
  {
  }

  /** For a separator whose occurrences cannot overlap, the last piece of
      `s.split(sep)` is exactly the text after the LAST occurrence of `sep`. */
  lemma SplitLastAfterLastOccurrence(s: string, sep: string, j: int)
    requires sep != [] && SelfOverlapFree(sep)
    requires OccursAt(s, sep, j)
    requires forall i :: j < i ==> !OccursAt(s, sep, i)
    ensures SplitLast(s, sep) == s[j + |sep|..]
  {
    ContainsIff(s, sep);
    LastPieceStartSpec(s, sep, 0);
    var a := LastPieceStart(s, sep, 0);
    assert OccursAt(s, sep, a - |sep|);
    if a - |sep| < j {
      OccurrencesDisjoint(s, sep, a - |sep|, j);
    }
  }

  // ---------------------------------------------------------------------------
  // str.strip()

  /** The first index at or after `k` that is not whitespace (or `|s|`):
      the left scan of CPython's strip. */
  function SkipSpace(s: string, k: nat): (r: nat)
    requires k <= |s|
    decreases |s| - k
    ensures k <= r <= |s|
    ensures forall j :: k <= j < r ==> IsSpace(s[j])
    ensures r < |s| ==> !IsSpace(s[r])
  {
    if k < |s| && IsSpace(s[k]) then SkipSpace(s, k + 1) else k
  }

  /** The end left after dropping whitespace from the back of `s[lo..e]`:
      the right scan of CPython's strip, which never passes `lo`. */
  function SkipSpaceBack(s: string, lo: nat, e: nat): (r: nat)
    requires lo <= e <= |s|
    decreases e
    ensures lo <= r <= e
    ensures forall j :: r <= j < e ==> IsSpace(s[j])
    ensures lo < r ==> !IsSpace(s[r - 1])
  {
    if lo < e && IsSpace(s[e - 1]) then SkipSpaceBack(s, lo, e - 1) else e
  }

  /** `r` sits at index `a` of `s`, with only whitespace before and after. */
  predicate SpaceFramed(s: string, r: string, a: int) {
    0 <= a && a + |r| <= |s| && s[a..a + |r|] == r
    && (forall k :: 0 <= k < a ==> IsSpace(s[k]))
    && (forall k :: a + |r| <= k < |s| ==> IsSpace(s[k]))
  }

  /** `s.strip()`. */
  function Strip(s: string): (r: string)
    ensures SpaceFramed(s, r, SkipSpace(s, 0))
    ensures r == [] || (!IsSpace(r[0]) && !IsSpace(r[|r| - 1]))
    ensures r == [] <==> AllSpace(s)
  {
    var i := SkipSpace(s, 0);
    var j := SkipSpaceBack(s, i, |s|);
    StripEnds(s, i, j);
    s[i..j]
  }

  /** The text between the two scans is framed by whitespace, starts and
      ends with non-whitespace, and is empty only for all-whitespace text. */
  lemma StripEnds(s: string, i: nat, j: nat)
    requires i <= j <= |s|
    requires forall k :: 0 <= k < i ==> IsSpace(s[k])
    requires i < |s| ==> !IsSpace(s[i])
    requires forall k :: j <= k < |s| ==> IsSpace(s[k])
    requires i < j ==> !IsSpace(s[j - 1])
    ensures SpaceFramed(s, s[i..j], i)
    ensures i < j ==> !IsSpace(s[i..j][0]) && !IsSpace(s[i..j][j - i - 1])
    ensures i == j <==> AllSpace(s)
  {
  }

  /** Stripping cannot create an occurrence of `p`. */
  lemma StripKeepsAbsent(s: string, p: string)
    requires !Contains(s, p)
    ensures !Contains(Strip(s), p)
  {
    var i := SkipSpace(s, 0);
    var j := SkipSpaceBack(s, i, |s|);
    if Contains(Strip(s), p) {
      ContainsSlice(s, i, j, p);
    }
  }

  // ---------------------------------------------------------------------------
  // str.split() with no separator

  /** The first whitespace index at or after `k` (or `|s|`): where a word
      that starts at `k` ends. */
  function WordEnd(s: string, k: nat): (r: nat)
    requires k <= |s|
    decreases |s| - k
    ensures k <= r <= |s|
    ensures forall j :: k <= j < r ==> !IsSpace(s[j])
    ensures r < |s| ==> IsSpace(s[r])
  {
    if k < |s| && !IsSpace(s[k]) then WordEnd(s, k + 1) else k
  }

  /** The words of `s[k..]`: skip whitespace, take the run of
      non-whitespace, repeat; CPython's split without a separator. */
  function SplitFrom(s: string, k: nat): seq<string>
    requires k <= |s|
    decreases |s| - k
  {
    var a := SkipSpace(s, k);
    if a == |s| then []
    else
      var e := WordEnd(s, a);
      [s[a..e]] + SplitFrom(s, e)
  }

  /** `s.split()`. */
  function Split(s: string): seq<string> {
    SplitFrom(s, 0)
  }

  /** `s.split()` yields no word exactly when `s` is all whitespace. */
  lemma SplitBlank(s: string)
    ensures Split(s) == [] <==> AllSpace(s)
  {
  }

  /** Every word `s[k..].split()` yields is non-empty and holds no
      whitespace. */
  lemma {:induction false} SplitFromWords(s: string, k: nat)
    requires k <= |s|
    decreases |s| - k
    ensures forall m :: 0 <= m < |SplitFrom(s, k)| ==> SplitFrom(s, k)[m] != [] && NoSpace(SplitFrom(s, k)[m])
  {
    var a := SkipSpace(s, k);
    if a < |s| {
      var e := WordEnd(s, a);
      SplitFromWords(s, e);
      forall j | 0 <= j < e - a
        ensures !IsSpace(s[a..e][j])
      {
        assert s[a..e][j] == s[a + j];
      }
      WordsCons(s[a..e], SplitFrom(s, e));
    }
  }

  /** Putting a word in front of a list of words keeps every entry a
      non-empty, whitespace-free word. */
  lemma WordsCons(w: string, rest: seq<string>)
    requires w != [] && NoSpace(w)
    requires forall k :: 0 <= k < |rest| ==> rest[k] != [] && NoSpace(rest[k])
    ensures forall k :: 0 <= k < |[w] + rest| ==> ([w] + rest)[k] != [] && NoSpace(([w] + rest)[k])
  {
  }

  /** `s[a..e]` is the last whitespace-delimited word of `s`: it is preceded
      by whitespace or the start of `s`, holds no whitespace, and is
      followed by whitespace only. */
  predicate LastWordSpan(s: string, a: int, e: int) {
    0 <= a < e <= |s|
    && (a == 0 || IsSpace(s[a - 1]))
    && (forall j :: a <= j < e ==> !IsSpace(s[j]))
    && (forall j :: e <= j < |s| ==> IsSpace(s[j]))
  }

  ghost predicate IsLastWord(s: string, w: string) {
    exists a, e :: LastWordSpan(s, a, e) && s[a..e] == w
  }

  /** Where the last word of `s[k..].split()` lies in `s`. */
  lemma {:induction false} SplitFromLast(s: string, k: nat) returns (a: nat, e: nat)
    requires k <= |s| && SplitFrom(s, k) != []
    decreases |s| - k
    ensures SkipSpace(s, k) <= a < e <= |s|
    ensures a == SkipSpace(s, k) || IsSpace(s[a - 1])
    ensures forall j :: a <= j < e ==> !IsSpace(s[j])
    ensures forall j :: e <= j < |s| ==> IsSpace(s[j])
    ensures SplitFrom(s, k)[|SplitFrom(s, k)| - 1] == s[a..e]
  {
    var a0 := SkipSpace(s, k);
    var e0 := WordEnd(s, a0);
    var rest := SplitFrom(s, e0);
    if rest == [] {
      a, e := a0, e0;
    } else {
      a, e := SplitFromLast(s, e0);
      assert SkipSpace(s, e0) > e0;
      assert SplitFrom(s, k)[|SplitFrom(s, k)| - 1] == rest[|rest| - 1];
    }
  }

  /** `s.split()[-1]` is the last whitespace-delimited word of `s`. */
  lemma SplitLastWord(s: string)
    requires Split(s) != []
    ensures IsLastWord(s, Split(s)[|Split(s)| - 1])
  {
    var a, e := SplitFromLast(s, 0);
    assert LastWordSpan(s, a, e);
  }

  /** A string has at most one last word. */
  lemma LastWordUnique(s: string, w1: string, w2: string)
    requires IsLastWord(s, w1) && IsLastWord(s, w2)
    ensures w1 == w2
  {
    var a1, e1 :| LastWordSpan(s, a1, e1) && s[a1..e1] == w1;
    var a2, e2 :| LastWordSpan(s, a2, e2) && s[a2..e2] == w2;
    LastWordSpanUnique(s, a1, e1, a2, e2);
  }

  lemma LastWordSpanUnique(s: string, a1: int, e1: int, a2: int, e2: int)
    requires LastWordSpan(s, a1, e1) && LastWordSpan(s, a2, e2)
    ensures a1 == a2 && e1 == e2
  {
    assert !IsSpace(s[e1 - 1]) && !IsSpace(s[e2 - 1]);
    assert a1 == 0 || IsSpace(s[a1 - 1]);
    assert a2 == 0 || IsSpace(s[a2 - 1]);
  }

  // ---------------------------------------------------------------------------
  // sep.join(xs)

  /** `sep.join(xs)`. */
  function Join(xs: seq<string>, sep: string): (r: string)
  {
    if xs == [] then ""
    else if |xs| == 1 then xs[0]
    else xs[0] + sep + Join(xs[1..], sep)
  }

  /** With a non-empty separator the join is empty exactly for `[]` and
      `[""]`. */
  lemma JoinEmptyIff(xs: seq<string>, sep: string)
    requires sep != []
    ensures Join(xs, sep) == "" <==> (xs == [] || xs == [""])
  {
  }

  /** Joining one more element appends the separator and that element. */
  lemma {:induction false} JoinSnoc(xs: seq<string>, x: string, sep: string)
    requires xs != []
    ensures Join(xs + [x], sep) == Join(xs, sep) + sep + x
  {
    if |xs| == 1 {
      assert xs + [x] == [xs[0], x];
    } else {
      assert (xs + [x])[1..] == xs[1..] + [x];
      JoinSnoc(xs[1..], x, sep);
    }
  }
}
