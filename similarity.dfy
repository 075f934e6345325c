/** internal/similarity/name.go: the fuzzy file-name scorer (Levenshtein,
    Jaro-Winkler and bigram Jaccard blended into a percentage) and the pair
    filter of FindSimilarNames. Integer intermediates are exact; ratios are
    real numbers. */
module NameSimilarity {

  import opened Text
  import opened Scanner

  // ---------------------------------------------------------------------
  // min / max
  // ---------------------------------------------------------------------

  /** The variadic min helper: 0 for no values, otherwise the least value. */
  method MinOf(values: seq<int>) returns (m: int)
    ensures values == [] ==> m == 0
    ensures values != [] ==> m in values && forall k :: 0 <= k < |values| ==> m <= values[k]
  {
    if |values| == 0 {
      return 0;
    }
    m := values[0];
    var k := 1;
    while k < |values|
      invariant 1 <= k <= |values|
      invariant m in values[..k]
      invariant forall q :: 0 <= q < k ==> m <= values[q]
    {
      if values[k] < m {
        m := values[k];
      }
      k := k + 1;
    }
  }

  /** The variadic max helper: 0 for no values, otherwise the greatest value. */
  method MaxOf(values: seq<int>) returns (m: int)
    ensures values == [] ==> m == 0
    ensures values != [] ==> m in values && forall k :: 0 <= k < |values| ==> values[k] <= m
  {
    if |values| == 0 {
      return 0;
    }
    m := values[0];
    var k := 1;
    while k < |values|
      invariant 1 <= k <= |values|
      invariant m in values[..k]
      invariant forall q :: 0 <= q < k ==> values[q] <= m
    {
      if values[k] > m {
        m := values[k];
      }
      k := k + 1;
    }
  }

  function Min(a: int, b: int): int { if a <= b then a else b }

  function Max(a: int, b: int): int { if a >= b then a else b }

  function Min3(a: int, b: int, c: int): int
  {
    if a <= b && a <= c then a else if b <= c then b else c
  }

  // ---------------------------------------------------------------------
  // normalizeFilename
  // ---------------------------------------------------------------------

  /** Lowercase, underscores and dashes to spaces, surrounding white space
      trimmed: the part of normalizeFilename after the extension cut. */
  function Clean(name: string): string
  {
    TrimSpace(Spaced(name))
  }

  /** Lowercase, with underscores and dashes turned into spaces. */
  function Spaced(name: string): string
  {
    ReplaceChar(ReplaceChar(Lower(name), '_', ' '), '-', ' ')
  }

  /** normalizeFilename: everything from the last '.' on is cut, then the
      rest is cleaned. The result holds no '_' or '-' and has no white space
      at either end. */
  function NormalizeFilename(filename: string): (r: string)
    ensures Cleaned(r)
  {
    var idx := LastIndex(filename, ".");
    var name := if idx != -1 then filename[..idx] else filename;
    CleanShape(name);
    Clean(name)
  }

  /** A cleaned name holds no '_' or '-' and has no white space at either
      end. */
  predicate Cleaned(r: string)
  {
    && (forall k :: 0 <= k < |r| ==> r[k] != '_' && r[k] != '-')
    && (r != [] ==> !IsSpace(r[0]) && !IsSpace(r[|r| - 1]))
  }

  lemma CleanShape(name: string)
    ensures Cleaned(Clean(name))
  {
    var t := Spaced(name);
    var r := TrimSpace(t);
    var i := TrimSpaceOffset(t);
    forall k | 0 <= k < |r| ensures r[k] != '_' && r[k] != '-' {
      assert r[k] == t[i + k];
      SpacedAt(name, i + k);
    }
  }

  lemma SpacedAt(name: string, j: nat)
    requires j < |Spaced(name)|
    ensures Spaced(name)[j] != '_' && Spaced(name)[j] != '-'
  {
    var u := ReplaceChar(Lower(name), '_', ' ');
    assert u[j] != '_';
  }

  /** Only the text after the last '.' is removed: a dot-free extension goes,
      and the stem before it is kept whole, dots included. */
  lemma NormalizeDropsLastExtension(stem: string, ext: string)
    requires '.' !in ext
    ensures NormalizeFilename(stem + "." + ext) == Clean(stem)
  {
    var f := stem + "." + ext;
    LastDot(stem, ext);
    assert f[..|stem|] == stem;
  }

  lemma LastDot(stem: string, ext: string)
    requires '.' !in ext
    ensures LastIndex(stem + "." + ext, ".") == |stem|
  {
    var f := stem + "." + ext;
    assert OccursAt(f, ".", |stem|);
    forall k | |stem| < k < |f| ensures f[k] != '.' {
      assert f[k] == ext[k - |stem| - 1];
    }
  }

  /** A name without a dot is cleaned whole. */
  lemma NormalizeNoDot(filename: string)
    requires '.' !in filename
    ensures NormalizeFilename(filename) == Clean(filename)
  {
    forall k | 0 <= k < |filename| ensures !OccursAt(filename, ".", k) {
      assert filename[k] != '.';
    }
  }

  // ---------------------------------------------------------------------
  // Levenshtein
  // ---------------------------------------------------------------------

  /** Edit distance between s1[..i] and s2[..j]: the value matrix[i][j] of
      levenshteinDistance's table. */
  function Dist(s1: string, s2: string, i: nat, j: nat): nat
    requires i <= |s1| && j <= |s2|
    decreases i + j
  {
    if i == 0 then j
    else if j == 0 then i
    else
      Min3(Dist(s1, s2, i - 1, j) + 1, Dist(s1, s2, i, j - 1) + 1, Dist(s1, s2, i - 1, j - 1) + Cost(s1, s2, i, j))
  }

  /** The substitution cost of the last characters of s1[..i] and s2[..j]. */
  function Cost(s1: string, s2: string, i: nat, j: nat): nat
    requires 0 < i <= |s1| && 0 < j <= |s2|
  {
    if s1[i - 1] == s2[j - 1] then 0 else 1
  }

  /** levenshteinDistance's result: at least the difference of the lengths
      and at most the longer length. */
  function Levenshtein(s1: string, s2: string): (d: nat)
    ensures (if |s1| >= |s2| then |s1| - |s2| else |s2| - |s1|) <= d <= Max(|s1|, |s2|)
  {
    DistBounds(s1, s2, |s1|, |s2|);
    Dist(s1, s2, |s1|, |s2|)
  }

  /** levenshteinDistance: fills the (len1+1) x (len2+1) table row by row. */
  method LevenshteinDistance(s1: string, s2: string) returns (d: int)
    ensures d == Levenshtein(s1, s2)
  {
    var len1, len2 := |s1|, |s2|;
    var matrix := new int[len1 + 1, len2 + 1];
    var i := 0;
    while i <= len1
      invariant 0 <= i <= len1 + 1
      invariant forall a :: 0 <= a < i ==> matrix[a, 0] == a
    {
      matrix[i, 0] := i;
      i := i + 1;
    }
    var j := 0;
    while j <= len2
      invariant 0 <= j <= len2 + 1
      invariant forall a :: 0 <= a <= len1 ==> matrix[a, 0] == a
      invariant forall b :: 0 <= b < j ==> matrix[0, b] == b
    {
      matrix[0, j] := j;
      j := j + 1;
    }
    i := 1;
    while i <= len1
      invariant 1 <= i <= len1 + 1
      invariant forall a, b {:trigger matrix[a, b]} :: 0 <= a < i && 0 <= b <= len2 ==> matrix[a, b] == Dist(s1, s2, a, b)
      invariant forall a :: i <= a <= len1 ==> matrix[a, 0] == a
    {
      FillRow(s1, s2, matrix, i);
      i := i + 1;
    }
    d := matrix[len1, len2];
  }

  /** One row of the table: matrix[i, j] for j from 1 to len2. */
  method FillRow(s1: string, s2: string, matrix: array2<int>, i: nat)
    requires matrix.Length0 == |s1| + 1 && matrix.Length1 == |s2| + 1
    requires 1 <= i <= |s1|
    requires forall a, b {:trigger matrix[a, b]} :: 0 <= a < i && 0 <= b <= |s2| ==> matrix[a, b] == Dist(s1, s2, a, b)
    requires forall a :: i <= a <= |s1| ==> matrix[a, 0] == a
    modifies matrix
    ensures forall a, b {:trigger matrix[a, b]} :: 0 <= a <= i && 0 <= b <= |s2| ==> matrix[a, b] == Dist(s1, s2, a, b)
    ensures forall a :: i < a <= |s1| ==> matrix[a, 0] == a
  {
    var len2 := |s2|;
    var j := 1;
    while j <= len2
      invariant 1 <= j <= len2 + 1
      invariant forall a, b {:trigger matrix[a, b]} :: 0 <= a < i && 0 <= b <= len2 ==> matrix[a, b] == Dist(s1, s2, a, b)
      invariant forall b {:trigger matrix[i, b]} :: 0 <= b < j ==> matrix[i, b] == Dist(s1, s2, i, b)
      invariant forall a :: i < a <= |s1| ==> matrix[a, 0] == a
    {
      var cost := 1;
      if s1[i - 1] == s2[j - 1] {
        cost := 0;
      }
      var m := Cell(matrix[i - 1, j], matrix[i, j - 1], matrix[i - 1, j - 1], cost);
      assert m == Dist(s1, s2, i, j);
      matrix[i, j] := m;
      j := j + 1;
    }
  }

  /** The minimum of the three ways into a cell. */
  method Cell(up: int, left: int, diag: int, cost: int) returns (m: int)
    ensures m == Min3(up + 1, left + 1, diag + cost)
  {
    var options := [up + 1, left + 1, diag + cost];
    m := MinOf(options);
    assert m <= options[0] && m <= options[1] && m <= options[2];
    assert m == options[0] || m == options[1] || m == options[2];
  }

  /** The distance lies between the length difference and the longer length. */
  lemma {:induction false} DistBounds(s1: string, s2: string, i: nat, j: nat)
    requires i <= |s1| && j <= |s2|
    ensures (if i >= j then i - j else j - i) <= Dist(s1, s2, i, j) <= Max(i, j)
    decreases i + j
  {
    DistLower(s1, s2, i, j);
    DistUpper(s1, s2, i, j);
  }

  lemma {:induction false} DistLower(s1: string, s2: string, i: nat, j: nat)
    requires i <= |s1| && j <= |s2|
    ensures (if i >= j then i - j else j - i) <= Dist(s1, s2, i, j)
    decreases i + j
  {
    if i > 0 && j > 0 {
      DistLower(s1, s2, i - 1, j);
      DistLower(s1, s2, i, j - 1);
      DistLower(s1, s2, i - 1, j - 1);
      var lo := if i >= j then i - j else j - i;
      var up, left, diag := Dist(s1, s2, i - 1, j) + 1, Dist(s1, s2, i, j - 1) + 1,
        Dist(s1, s2, i - 1, j - 1) + Cost(s1, s2, i, j);
      assert Dist(s1, s2, i, j) == Min3(up, left, diag);
      Min3Lower(lo, up, left, diag);
    }
  }

  lemma Min3Lower(lo: int, a: int, b: int, c: int)
    requires lo <= a && lo <= b && lo <= c
    ensures lo <= Min3(a, b, c)
  {
  }

  lemma {:induction false} DistUpper(s1: string, s2: string, i: nat, j: nat)
    requires i <= |s1| && j <= |s2|
    ensures Dist(s1, s2, i, j) <= Max(i, j)
    decreases i + j
  {
    if i > 0 && j > 0 {
      DistUpper(s1, s2, i - 1, j - 1);
      assert Dist(s1, s2, i, j) <= Dist(s1, s2, i - 1, j - 1) + Cost(s1, s2, i, j);
    }
  }

  /** Equal prefixes are at distance zero. */
  lemma {:induction false} DistZeroOfEqual(s1: string, s2: string, i: nat, j: nat)
    requires i <= |s1| && j <= |s2| && s1[..i] == s2[..j]
    ensures Dist(s1, s2, i, j) == 0
    decreases i
  {
    if i > 0 {
      assert s1[i - 1] == s1[..i][i - 1] == s2[..j][j - 1] == s2[j - 1];
      assert s1[..i - 1] == s1[..i][..i - 1] == s2[..j][..j - 1] == s2[..j - 1];
      DistZeroOfEqual(s1, s2, i - 1, j - 1);
    }
  }

  /** Prefixes at distance zero are equal. */
  lemma {:induction false} EqualOfDistZero(s1: string, s2: string, i: nat, j: nat)
    requires i <= |s1| && j <= |s2| && Dist(s1, s2, i, j) == 0
    ensures s1[..i] == s2[..j]
    decreases i
  {
    DistBounds(s1, s2, i, j);
    if i > 0 {
      EqualOfDistZero(s1, s2, i - 1, j - 1);
      assert s1[..i] == s1[..i - 1] + [s1[i - 1]];
      assert s2[..j] == s2[..j - 1] + [s2[j - 1]];
    }
  }

  lemma Min3Swap(a: int, b: int, c: int)
    ensures Min3(a, b, c) == Min3(b, a, c)
  {
  }

  lemma {:induction false} DistSymmetric(s1: string, s2: string, i: nat, j: nat)
    requires i <= |s1| && j <= |s2|
    ensures Dist(s1, s2, i, j) == Dist(s2, s1, j, i)
    decreases i + j
  {
    if i > 0 && j > 0 {
      DistSymmetric(s1, s2, i - 1, j);
      DistSymmetric(s1, s2, i, j - 1);
      DistSymmetric(s1, s2, i - 1, j - 1);
      var up, left, diag := Dist(s1, s2, i - 1, j) + 1, Dist(s1, s2, i, j - 1) + 1,
        Dist(s1, s2, i - 1, j - 1) + Cost(s1, s2, i, j);
      assert Cost(s2, s1, j, i) == Cost(s1, s2, i, j);
      var x, y := Dist(s1, s2, i, j), Dist(s2, s1, j, i);
      assert x == Min3(up, left, diag);
      assert y == Min3(left, up, diag);
      Min3Swap(up, left, diag);
    }
  }

  /** The properties of levenshteinDistance on whole strings. */
  lemma LevenshteinProperties(s1: string, s2: string)
    ensures Levenshtein(s1, s1) == 0
    ensures Levenshtein(s1, "") == |s1|
    ensures Levenshtein(s1, s2) == 0 <==> s1 == s2
    ensures (if |s1| >= |s2| then |s1| - |s2| else |s2| - |s1|) <= Levenshtein(s1, s2) <= Max(|s1|, |s2|)
    ensures Levenshtein(s1, s2) == Levenshtein(s2, s1)
  {
    DistZeroOfEqual(s1, s1, |s1|, |s1|);
    if s1 == s2 { DistZeroOfEqual(s1, s2, |s1|, |s2|); }
    if Levenshtein(s1, s2) == 0 { EqualOfDistZero(s1, s2, |s1|, |s2|); }
    DistBounds(s1, s2, |s1|, |s2|);
    DistSymmetric(s1, s2, |s1|, |s2|);
    assert s1[..|s1|] == s1 && s2[..|s2|] == s2;
  }

  lemma RatioBounds(a: real, b: real)
    requires 0.0 <= a <= b && b > 0.0
    ensures 0.0 <= a / b <= 1.0
  {
  }

  /** levenshteinSimilarity: one minus the distance over the longer length,
      1 when both strings are empty. */
  function LevenshteinSimilarity(s1: string, s2: string): (r: real)
    ensures 0.0 <= r <= 1.0
    ensures r == 1.0 <==> s1 == s2
  {
    var maxLen := Max(|s1|, |s2|);
    LevenshteinProperties(s1, s2);
    if maxLen == 0 then 1.0
    else
      RatioBounds(Levenshtein(s1, s2) as real, maxLen as real);
      1.0 - (Levenshtein(s1, s2) as real / maxLen as real)
  }

  // ---------------------------------------------------------------------
  // Jaro: reference definition
  // ---------------------------------------------------------------------

  /** The number of set flags. */
  function Count(f: seq<bool>): (r: nat)
    ensures r <= |f|
  {
    if f == [] then 0 else (if f[0] then 1 else 0) + Count(f[1..])
  }

  lemma {:induction false} CountNone(n: nat)
    ensures Count(seq(n, _ => false)) == 0
  {
    if n > 0 {
      assert seq(n, _ => false)[1..] == seq(n - 1, _ => false);
      CountNone(n - 1);
    }
  }

  /** Setting a clear flag adds one to the count. */
  lemma {:induction false} CountSet(f: seq<bool>, p: nat)
    requires p < |f| && !f[p]
    ensures Count(f[p := true]) == Count(f) + 1
  {
    if p > 0 {
      assert f[p := true][1..] == f[1..][p - 1 := true];
      CountSet(f[1..], p - 1);
    }
  }

  /** Count over a suffix, one flag at a time. */
  lemma CountSuffix(f: seq<bool>, k: nat)
    requires k < |f|
    ensures Count(f[k..]) == (if f[k] then 1 else 0) + Count(f[k + 1..])
  {
    assert f[k..][1..] == f[k + 1..];
  }

  /** The first set flag at or after k; one exists when the suffix count is positive. */
  function NextSet(f: seq<bool>, k: nat): (r: nat)
    requires k <= |f| && Count(f[k..]) > 0
    ensures k <= r < |f| && f[r]
    ensures forall q :: k <= q < r ==> !f[q]
    ensures Count(f[k..]) == 1 + Count(f[r + 1..])
    decreases |f| - k
  {
    CountSuffix(f, k);
    if f[k] then k else NextSet(f, k + 1)
  }

  /** matchDistance: half the longer length minus one, never negative. */
  function MatchDistance(len1: nat, len2: nat): nat
  {
    var d := Max(len1, len2) / 2 - 1;
    if d < 0 then 0 else d
  }

  /** The first position j' in [j, end) where s2 holds c and is not yet
      matched, or -1. */
  function FirstFree(c: char, s2: string, f2: seq<bool>, j: int, end: int): (r: int)
    requires |f2| == |s2| && 0 <= j && end <= |s2|
    ensures r == -1 || (j <= r < end && !f2[r] && s2[r] == c)
    ensures forall q :: j <= q < end && (r == -1 || q < r) ==> f2[q] || s2[q] != c
    decreases end - j
  {
    if j >= end then -1
    else if !f2[j] && s2[j] == c then j
    else FirstFree(c, s2, f2, j + 1, end)
  }

  datatype Matched = Matched(f1: seq<bool>, f2: seq<bool>, matches: nat)

  /** The flag arrays and match count after the first i characters of s1
      have looked for a partner in their window of s2. */
  function Matching(s1: string, s2: string, i: nat): (r: Matched)
    requires i <= |s1|
    ensures |r.f1| == |s1| && |r.f2| == |s2|
  {
    if i == 0 then Matched(seq(|s1|, _ => false), seq(|s2|, _ => false), 0)
    else
      var st := Matching(s1, s2, i - 1);
      var md := MatchDistance(|s1|, |s2|);
      var j := FirstFree(s1[i - 1], s2, st.f2, Max(0, i - 1 - md), Min(i - 1 + md + 1, |s2|));
      if j >= 0 then Matched(st.f1[i - 1 := true], st.f2[j := true], st.matches + 1) else st
  }

  /** Both flag arrays have exactly `matches` flags set, and the flags of s1
      from position `from` on are clear. */
  predicate Balanced(st: Matched, from: nat)
  {
    Count(st.f1) == st.matches == Count(st.f2) && forall q :: from <= q < |st.f1| ==> !st.f1[q]
  }

  lemma BalancedStep(st: Matched, i: nat, j: int)
    requires Balanced(st, i) && i < |st.f1|
    requires j == -1 || (0 <= j < |st.f2| && !st.f2[j])
    ensures Balanced(if j >= 0 then Matched(st.f1[i := true], st.f2[j := true], st.matches + 1) else st, i + 1)
  {
    if j >= 0 {
      CountSet(st.f1, i);
      CountSet(st.f2, j);
    }
  }

  /** Matching keeps the two flag arrays balanced. */
  lemma {:induction false} MatchingCounts(s1: string, s2: string, i: nat)
    requires i <= |s1|
    ensures Balanced(Matching(s1, s2, i), i)
  {
    if i == 0 {
      CountNone(|s1|);
      CountNone(|s2|);
    } else {
      MatchingCounts(s1, s2, i - 1);
      var st := Matching(s1, s2, i - 1);
      var md := MatchDistance(|s1|, |s2|);
      var j := FirstFree(s1[i - 1], s2, st.f2, Max(0, i - 1 - md), Min(i - 1 + md + 1, |s2|));
      assert Matching(s1, s2, i) == if j >= 0 then Matched(st.f1[i - 1 := true], st.f2[j := true], st.matches + 1) else st;
      BalancedStep(st, i - 1, j);
    }
  }

  /** The number of characters matched by jaroSimilarity's first phase. */
  function JaroMatches(s1: string, s2: string): (m: nat)
    ensures m <= Min(|s1|, |s2|)
  {
    MatchingCounts(s1, s2, |s1|);
    Matching(s1, s2, |s1|).matches
  }

  /** The transposition count of jaroSimilarity's second phase; the walk over
      s2 never runs out of flags. */
  function JaroTranspositions(s1: string, s2: string): (t: nat)
    ensures t <= JaroMatches(s1, s2)
  {
    var st := Matching(s1, s2, |s1|);
    MatchingCounts(s1, s2, |s1|);
    assert st.f1[0..] == st.f1 && st.f2[0..] == st.f2;
    Transpositions(s1, s2, st.f1, st.f2, 0, 0)
  }

  /** The transposition walk from s1 position i and s2 position k: every
      flagged character of s1 is paired with the next flagged character of s2,
      and unequal pairs are counted. */
  function Transpositions(s1: string, s2: string, f1: seq<bool>, f2: seq<bool>, i: nat, k: nat): (r: nat)
    requires |f1| == |s1| && |f2| == |s2| && i <= |s1| && k <= |s2|
    requires Count(f1[i..]) <= Count(f2[k..])
    ensures r <= Count(f1[i..])
    decreases |s1| - i
  {
    if i == |s1| then 0
    else
      CountSuffix(f1, i);
      if !f1[i] then Transpositions(s1, s2, f1, f2, i + 1, k)
      else
        var k' := NextSet(f2, k);
        (if s1[i] != s2[k'] then 1 else 0) + Transpositions(s1, s2, f1, f2, i + 1, k' + 1)
  }

  /** jaroSimilarity: 1 on equal strings, 0 when either is empty or nothing
      matches, otherwise the mean of the two match ratios and the share of
      matches that are not half-transpositions. */
  function Jaro(s1: string, s2: string): (r: real)
    ensures s1 == s2 ==> r == 1.0
    ensures s1 != s2 && (s1 == [] || s2 == []) ==> r == 0.0
    ensures 0.0 <= r <= 1.0
  {
    if s1 == s2 then 1.0
    else if |s1| == 0 || |s2| == 0 then 0.0
    else
      var matches := JaroMatches(s1, s2);
      if matches == 0 then 0.0
      else
        var t := JaroTranspositions(s1, s2);
        JaroFormula(|s1|, |s2|, matches, t)
  }

  /** The Jaro formula over the integer intermediates; transpositions/2 is
      integer division. */
  function JaroFormula(len1: nat, len2: nat, matches: nat, t: nat): (r: real)
    requires 0 < matches <= len1 && matches <= len2 && t <= matches
    ensures 0.0 <= r <= 1.0
  {
    var m := matches as real;
    RatioBounds(m, len1 as real);
    RatioBounds(m, len2 as real);
    RatioBounds((matches - t / 2) as real, m);
    (m / len1 as real + m / len2 as real + (matches - t / 2) as real / m) / 3.0
  }

  // ---------------------------------------------------------------------
  // Jaro: the method
  // ---------------------------------------------------------------------

  /** The inner scan of the first phase: the first unmatched position of the
      window [start, end) of s2 that holds c, or -1. */
  method FindPartner(c: char, s2: string, s2Matches: array<bool>, start: int, end: int) returns (j: int)
    requires s2Matches.Length == |s2| && 0 <= start && end <= |s2|
    ensures j == FirstFree(c, s2, s2Matches[..], start, end)
  {
    j := start;
    while j < end
      invariant start <= j
      invariant FirstFree(c, s2, s2Matches[..], start, end) == FirstFree(c, s2, s2Matches[..], j, end)
    {
      if s2Matches[j] || c != s2[j] {
        j := j + 1;
        continue;
      }
      return j;
    }
    return -1;
  }

  /** The search window of position i: max(0, i-d) up to min(i+d+1, len2). */
  method Window(i: int, matchDistance: int, len2: int) returns (start: int, end: int)
    ensures start == Max(0, i - matchDistance) && end == Min(i + matchDistance + 1, len2)
  {
    var low := [0, i - matchDistance];
    var high := [i + matchDistance + 1, len2];
    start := MaxOf(low);
    end := MinOf(high);
    assert start == low[0] || start == low[1];
    assert start >= low[0] && start >= low[1];
    assert end == high[0] || end == high[1];
    assert end <= high[0] && end <= high[1];
  }

  /** The match distance of two lengths, with the helper max. */
  method MatchDistanceOf(len1: nat, len2: nat) returns (matchDistance: int)
    ensures matchDistance == MatchDistance(len1, len2)
  {
    var lengths := [len1, len2];
    matchDistance := MaxOf(lengths);
    assert matchDistance == lengths[0] || matchDistance == lengths[1];
    assert matchDistance >= lengths[0] && matchDistance >= lengths[1];
    matchDistance := matchDistance / 2 - 1;
    if matchDistance < 0 {
      matchDistance := 0;
    }
  }

  /** One step of the first phase, in terms of the window scan's result. */
  lemma MatchingStep(s1: string, s2: string, i: nat, j: int)
    requires i < |s1|
    requires var md := MatchDistance(|s1|, |s2|);
      j == FirstFree(s1[i], s2, Matching(s1, s2, i).f2, Max(0, i - md), Min(i + md + 1, |s2|))
    ensures var st := Matching(s1, s2, i);
      Matching(s1, s2, i + 1)
        == if j >= 0 then Matched(st.f1[i := true], st.f2[j := true], st.matches + 1) else st
  {
  }

  /** Marks position i of s1 and position j of s2 as matched. */
  method Claim(s1Matches: array<bool>, s2Matches: array<bool>, i: int, j: int)
    requires 0 <= i < s1Matches.Length && 0 <= j < s2Matches.Length && s1Matches != s2Matches
    modifies s1Matches, s2Matches
    ensures s1Matches[..] == old(s1Matches[..])[i := true]
    ensures s2Matches[..] == old(s2Matches[..])[j := true]
  {
    s1Matches[i] := true;
    s2Matches[j] := true;
  }

  /** The body of the first phase for position i of s1. */
  method MatchOne(s1: string, s2: string, s1Matches: array<bool>, s2Matches: array<bool>,
                  matchDistance: int, i: nat, matches: nat) returns (matches': nat)
    requires s1Matches.Length == |s1| && s2Matches.Length == |s2| && s1Matches != s2Matches
    requires i < |s1| && matchDistance == MatchDistance(|s1|, |s2|)
    requires Matched(s1Matches[..], s2Matches[..], matches) == Matching(s1, s2, i)
    modifies s1Matches, s2Matches
    ensures Matched(s1Matches[..], s2Matches[..], matches') == Matching(s1, s2, i + 1)
  {
    var start, end := Window(i, matchDistance, |s2|);
    var j := FindPartner(s1[i], s2, s2Matches, start, end);
    MatchingStep(s1, s2, i, j);
    matches' := matches;
    if j >= 0 {
      Claim(s1Matches, s2Matches, i, j);
      matches' := matches + 1;
    }
  }

  /** The first phase of jaroSimilarity: each character of s1 claims the first
      free equal character of s2 within matchDistance of its position. */
  method MatchPhase(s1: string, s2: string, s1Matches: array<bool>, s2Matches: array<bool>)
    returns (matches: nat)
    requires s1Matches.Length == |s1| && s2Matches.Length == |s2| && s1Matches != s2Matches
    requires s1Matches[..] == seq(|s1|, _ => false) && s2Matches[..] == seq(|s2|, _ => false)
    modifies s1Matches, s2Matches
    ensures Matched(s1Matches[..], s2Matches[..], matches) == Matching(s1, s2, |s1|)
  {
    var matchDistance := MatchDistanceOf(|s1|, |s2|);
    matches := 0;
    var i := 0;
    while i < |s1|
      invariant 0 <= i <= |s1|
      invariant Matched(s1Matches[..], s2Matches[..], matches) == Matching(s1, s2, i)
    {
      matches := MatchOne(s1, s2, s1Matches, s2Matches, matchDistance, i, matches);
      i := i + 1;
    }
  }

  /** One step of the transposition walk: from (i, k) it moves to
      (i + 1, k') and adds d. */
  lemma TranspositionsStep(s1: string, s2: string, f1: seq<bool>, f2: seq<bool>, i: nat, k: nat)
    returns (k': nat, d: nat)
    requires |f1| == |s1| && |f2| == |s2| && i < |s1| && k <= |s2|
    requires Count(f1[i..]) <= Count(f2[k..])
    ensures k' <= |s2| && Count(f1[i + 1..]) <= Count(f2[k'..])
    ensures Transpositions(s1, s2, f1, f2, i, k) == d + Transpositions(s1, s2, f1, f2, i + 1, k')
    ensures !f1[i] ==> k' == k && d == 0
    ensures f1[i] ==> Count(f2[k..]) > 0 && k' == NextSet(f2, k) + 1 && d == (if s1[i] != s2[k' - 1] then 1 else 0)
  {
    CountSuffix(f1, i);
    if f1[i] {
      k' := NextSet(f2, k) + 1;
      d := if s1[i] != s2[k' - 1] then 1 else 0;
    } else {
      k', d := k, 0;
    }
  }

  /** The walk `for !s2Matches[k] { k++ }`: it ends at the next flag, which
      exists whenever a flag is set at or after k. */
  method SkipToFlag(s2Matches: array<bool>, k: nat) returns (k': nat)
    requires k <= s2Matches.Length && Count(s2Matches[..][k..]) > 0
    ensures k' == NextSet(s2Matches[..], k)
  {
    ghost var next := NextSet(s2Matches[..], k);
    k' := k;
    while !s2Matches[k']
      invariant k <= k' <= next
      invariant forall q :: k' <= q < next ==> !s2Matches[q]
      decreases next - k'
    {
      k' := k' + 1;
    }
  }

  /** The second phase of jaroSimilarity: the flagged characters of s1 and of
      s2 are paired in order and unequal pairs counted. The inner walk
      `while !s2Matches[k]` stays below len2 because the flags of s2 at or
      after k always outnumber the flags of s1 still to come. */
  method CountTranspositions(s1: string, s2: string, s1Matches: array<bool>, s2Matches: array<bool>)
    returns (transpositions: int)
    requires s1Matches.Length == |s1| && s2Matches.Length == |s2|
    requires Count(s1Matches[..]) <= Count(s2Matches[..])
    ensures transpositions == Transpositions(s1, s2, s1Matches[..], s2Matches[..], 0, 0)
  {
    var len1, len2 := |s1|, |s2|;
    ghost var f1, f2 := s1Matches[..], s2Matches[..];
    assert f1[0..] == f1 && f2[0..] == f2;
    transpositions := 0;
    var k := 0;
    var i := 0;
    while i < len1
      invariant 0 <= i <= len1 && 0 <= k <= len2
      invariant Count(f1[i..]) <= Count(f2[k..])
      invariant transpositions + Transpositions(s1, s2, f1, f2, i, k)
             == Transpositions(s1, s2, f1, f2, 0, 0)
    {
      ghost var k', d := TranspositionsStep(s1, s2, f1, f2, i, k);
      if s1Matches[i] {
        k := SkipToFlag(s2Matches, k);
        if s1[i] != s2[k] {
          transpositions := transpositions + 1;
        }
        k := k + 1;
      }
      assert k == k';
      i := i + 1;
    }
  }

  /** jaroSimilarity with its two flag arrays. */
  method JaroSimilarity(s1: string, s2: string) returns (r: real)
    ensures r == Jaro(s1, s2)
  {
    if s1 == s2 {
      return 1.0;
    }
    var len1, len2 := |s1|, |s2|;
    if len1 == 0 || len2 == 0 {
      return 0.0;
    }
    var s1Matches := new bool[len1](_ => false);
    var s2Matches := new bool[len2](_ => false);
    assert s1Matches[..] == seq(len1, _ => false) && s2Matches[..] == seq(len2, _ => false);
    var matches := MatchPhase(s1, s2, s1Matches, s2Matches);
    if matches == 0 {
      return 0.0;
    }
    MatchingCounts(s1, s2, len1);
    var transpositions := CountTranspositions(s1, s2, s1Matches, s2Matches);
    r := JaroFormula(len1, len2, matches, transpositions);
  }

  // ---------------------------------------------------------------------
  // Jaro-Winkler
  // ---------------------------------------------------------------------

  /** The number of equal leading characters from position i on, stopping at limit. */
  function PrefixFrom(s1: string, s2: string, limit: nat, i: nat): (r: nat)
    requires i <= limit <= |s1| && limit <= |s2|
    requires forall k :: 0 <= k < i ==> s1[k] == s2[k]
    ensures i <= r <= limit
    ensures forall k :: 0 <= k < r ==> s1[k] == s2[k]
    ensures r < limit ==> s1[r] != s2[r]
    decreases limit - i
  {
    if i == limit || s1[i] != s2[i] then i else PrefixFrom(s1, s2, limit, i + 1)
  }

  /** jaroWinklerSimilarity's prefixLen: leading equal characters, at most four. */
  function CommonPrefix(s1: string, s2: string): (r: nat)
    ensures r <= Min3(|s1|, |s2|, 4)
    ensures forall k :: 0 <= k < r ==> s1[k] == s2[k]
    ensures r < Min3(|s1|, |s2|, 4) ==> s1[r] != s2[r]
  {
    PrefixFrom(s1, s2, Min3(|s1|, |s2|, 4), 0)
  }

  /** A bonus of at most 0.4 of the remaining gap keeps a score within [0, 1]. */
  lemma WinklerBound(jaro: real, prefixLen: nat)
    requires 0.0 <= jaro <= 1.0 && prefixLen <= 4
    ensures 0.0 <= Winkler(jaro, prefixLen) <= 1.0
    ensures jaro == 1.0 ==> Winkler(jaro, prefixLen) == 1.0
  {
    var bonus := prefixLen as real * 0.1;
    var gap := 1.0 - jaro;
    assert Winkler(jaro, prefixLen) == jaro + bonus * gap;
    assert (0.4 - bonus) * gap >= 0.0 by { MulNonneg(0.4 - bonus, gap); }
    assert (0.4 - bonus) * gap == 0.4 * gap - bonus * gap;
    MulNonneg(bonus, gap);
  }

  lemma MulNonneg(x: real, y: real)
    requires 0.0 <= x && 0.0 <= y
    ensures 0.0 <= x * y
  {
  }

  /** jaroWinklerSimilarity: the Jaro score raised by a tenth of the
      remaining gap per common leading character; it stays within [0, 1]. */
  function JaroWinkler(s1: string, s2: string): (r: real)
    ensures 0.0 <= r <= 1.0
    ensures s1 == s2 ==> r == 1.0
  {
    WinklerBound(Jaro(s1, s2), CommonPrefix(s1, s2));
    Winkler(Jaro(s1, s2), CommonPrefix(s1, s2))
  }

  /** The Winkler adjustment: 0.1 of the remaining gap per common prefix character. */
  function Winkler(jaro: real, prefixLen: nat): real
  {
    jaro + (prefixLen as real * 0.1) * (1.0 - jaro)
  }

  /** jaroWinklerSimilarity's prefix loop. */
  method PrefixLength(s1: string, s2: string) returns (prefixLen: nat)
    ensures prefixLen == CommonPrefix(s1, s2)
  {
    var bounds := [|s1|, |s2|, 4];
    var limit := MinOf(bounds);
    assert limit == bounds[0] || limit == bounds[1] || limit == bounds[2];
    assert limit <= bounds[0] && limit <= bounds[1] && limit <= bounds[2];
    assert limit == Min3(|s1|, |s2|, 4);
    prefixLen := 0;
    var i := 0;
    while i < limit
      invariant 0 <= i <= limit && prefixLen == i
      invariant forall k :: 0 <= k < i ==> s1[k] == s2[k]
      invariant PrefixFrom(s1, s2, limit, 0) == PrefixFrom(s1, s2, limit, i)
    {
      if s1[i] == s2[i] {
        prefixLen := prefixLen + 1;
      } else {
        break;
      }
      i := i + 1;
    }
  }

  /** jaroWinklerSimilarity. */
  method JaroWinklerSimilarity(s1: string, s2: string) returns (r: real)
    ensures r == JaroWinkler(s1, s2)
  {
    var jaro := JaroSimilarity(s1, s2);
    var prefixLen := PrefixLength(s1, s2);
    r := Winkler(jaro, prefixLen);
  }

  // ---------------------------------------------------------------------
  // n-grams
  // ---------------------------------------------------------------------

  /** The n-gram of s at position i. */
  function Gram(s: string, n: nat, i: nat): string
    requires i + n <= |s|
  {
    s[i..i + n]
  }

  /** The n-grams starting before position k. */
  function NgramsBelow(s: string, n: nat, k: nat): (r: set<string>)
    requires k + n <= |s| + 1
    ensures |r| <= k
    ensures forall g :: g in r ==> |g| == n
  {
    if k == 0 then {}
    else
      var prev := NgramsBelow(s, n, k - 1);
      var g := Gram(s, n, k - 1);
      assert |prev + {g}| <= |prev| + 1 by {
        if g in prev { assert prev + {g} == prev; }
      }
      prev + {g}
  }

  /** getNgrams as a set: the string itself when shorter than n, otherwise its
      substrings of length n. */
  function Ngrams(s: string, n: nat): set<string>
  {
    if |s| < n then {s} else NgramsBelow(s, n, |s| - n + 1)
  }

  lemma {:induction false} NgramsBelowMembers(s: string, n: nat, k: nat)
    requires k + n <= |s| + 1
    ensures forall g :: g in NgramsBelow(s, n, k) <==> exists i :: 0 <= i < k && g == Gram(s, n, i)
  {
    if k > 0 {
      NgramsBelowMembers(s, n, k - 1);
      var prev := NgramsBelow(s, n, k - 1);
      var last := Gram(s, n, k - 1);
      assert NgramsBelow(s, n, k) == prev + {last};
      forall g | g in NgramsBelow(s, n, k)
        ensures exists i :: 0 <= i < k && g == Gram(s, n, i)
      {
        if g != last {
          assert g in prev;
        }
      }
      forall i | 0 <= i < k
        ensures Gram(s, n, i) in NgramsBelow(s, n, k)
      {
        if i < k - 1 {
          assert Gram(s, n, i) in prev;
        }
      }
    }
  }

  /** getNgrams never returns an empty set; a short string is its own only
      n-gram; otherwise there are at most |s|-n+1 n-grams, each of length n,
      and each is a substring of s. */
  lemma NgramsProperties(s: string, n: nat)
    ensures Ngrams(s, n) != {}
    ensures |s| < n ==> Ngrams(s, n) == {s}
    ensures |s| >= n ==> (|Ngrams(s, n)| <= |s| - n + 1
      && forall g :: g in Ngrams(s, n) ==> |g| == n && exists i :: 0 <= i <= |s| - n && g == Gram(s, n, i))
  {
    if |s| >= n {
      NgramsBelowMembers(s, n, |s| - n + 1);
      assert Gram(s, n, 0) in Ngrams(s, n);
    }
  }

  /** getNgrams, filling its set in a loop. */
  method GetNgrams(s: string, n: nat) returns (ngrams: set<string>)
    ensures ngrams == Ngrams(s, n)
  {
    ngrams := {};
    if |s| < n {
      ngrams := ngrams + {s};
      return;
    }
    var i := 0;
    while i <= |s| - n
      invariant 0 <= i <= |s| - n + 1
      invariant ngrams == NgramsBelow(s, n, i)
    {
      ngrams := ngrams + {Gram(s, n, i)};
      i := i + 1;
    }
  }

  /** The Jaccard index of two n-gram sets as ngramSimilarity computes it:
      1 for two empty sets, 0 when one is empty. */
  function Jaccard(a: set<string>, b: set<string>): (r: real)
    ensures 0.0 <= r <= 1.0
    ensures a == b ==> r == 1.0
  {
    if |a| == 0 && |b| == 0 then 1.0
    else if |a| == 0 || |b| == 0 then 0.0
    else
      var common := |a * b|;
      var total := |a| + |b| - common;
      assert |a * b| <= |a| && |a * b| <= |b| by {
        SubsetCard(a * b, a);
        SubsetCard(a * b, b);
      }
      assert a == b ==> a * b == a;
      if total == 0 then 0.0
      else
        RatioBounds(common as real, total as real);
        common as real / total as real
  }

  lemma {:induction false} SubsetCard(a: set<string>, b: set<string>)
    requires a <= b
    ensures |a| <= |b|
    decreases |b|
  {
    if a != {} {
      var x :| x in a;
      SubsetCard(a - {x}, b - {x});
    }
  }

  function NgramSimilarity(s1: string, s2: string, n: nat): real
  {
    Jaccard(Ngrams(s1, n), Ngrams(s2, n))
  }

  /** The common-n-gram count of ngramSimilarity, one n-gram of the first
      set at a time. */
  method CountCommon(ngrams1: set<string>, ngrams2: set<string>) returns (common: nat)
    ensures common == |ngrams1 * ngrams2|
  {
    common := 0;
    var rest := ngrams1;
    while rest != {}
      invariant rest <= ngrams1
      invariant common == |(ngrams1 - rest) * ngrams2|
      decreases |rest|
    {
      var ng :| ng in rest;
      SeenStep(ngrams1, ngrams2, rest, ng);
      if ng in ngrams2 {
        common := common + 1;
      }
      rest := rest - {ng};
    }
    assert ngrams1 - rest == ngrams1;
  }

  /** Moving one n-gram from the unvisited rest of a to the visited part
      grows the visited common n-grams by that n-gram exactly when b holds it. */
  lemma SeenStep(a: set<string>, b: set<string>, rest: set<string>, x: string)
    requires x in rest && rest <= a
    ensures x in b ==> |(a - (rest - {x})) * b| == |(a - rest) * b| + 1
    ensures x !in b ==> (a - (rest - {x})) * b == (a - rest) * b
  {
    if x in b {
      assert x !in (a - rest) * b;
      assert (a - (rest - {x})) * b == (a - rest) * b + {x};
    }
  }

  /** ngramSimilarity. */
  method NgramSimilarityOf(s1: string, s2: string, n: nat) returns (r: real)
    ensures r == NgramSimilarity(s1, s2, n)
  {
    var ngrams1 := GetNgrams(s1, n);
    var ngrams2 := GetNgrams(s2, n);
    if |ngrams1| == 0 && |ngrams2| == 0 {
      return 1.0;
    }
    if |ngrams1| == 0 || |ngrams2| == 0 {
      return 0.0;
    }
    var common := CountCommon(ngrams1, ngrams2);
    var total := |ngrams1| + |ngrams2| - common;
    if total == 0 {
      return 0.0;
    }
    return common as real / total as real;
  }

  /** A name compared with itself scores 1 on bigrams. */
  lemma NgramSelf(s: string, n: nat)
    ensures NgramSimilarity(s, s, n) == 1.0
  {
  }

  // ---------------------------------------------------------------------
  // CalculateNormalizedSimilarity
  // ---------------------------------------------------------------------

  /** math.Round(x*10)/10 for x >= 0: rounding to one decimal, halves up. */
  function RoundTenth(x: real): (r: real)
    requires x >= 0.0
    ensures x - 0.05 <= r <= x + 0.05
  {
    (x * 10.0 + 0.5).Floor as real / 10.0
  }

  /** CalculateNormalizedSimilarity: 100 for equal names, otherwise the blend
      0.5 Levenshtein + 0.3 Jaro-Winkler + 0.2 bigram as a percentage rounded
      to one decimal; always within [0, 100]. */
  function CalculateNormalizedSimilarity(norm1: string, norm2: string): (r: real)
    ensures 0.0 <= r <= 100.0
    ensures norm1 == norm2 ==> r == 100.0
  {
    if norm1 == norm2 then 100.0
    else
      var lev := LevenshteinSimilarity(norm1, norm2);
      var jaro := JaroWinkler(norm1, norm2);
      var ngram := NgramSimilarity(norm1, norm2, 2);
      var similarity := (lev * 0.5 + jaro * 0.3 + ngram * 0.2) * 100.0;
      var r := RoundTenth(similarity);
      assert (similarity * 10.0 + 0.5).Floor <= 1000;
      r
  }

  /** The Levenshtein, common-prefix and bigram parts of the score do not
      depend on the order of the two names. */
  lemma ScorePartsSymmetric(a: string, b: string)
    ensures LevenshteinSimilarity(a, b) == LevenshteinSimilarity(b, a)
    ensures CommonPrefix(a, b) == CommonPrefix(b, a)
    ensures NgramSimilarity(a, b, 2) == NgramSimilarity(b, a, 2)
  {
    LevenshteinSimilaritySymmetric(a, b);
    CommonPrefixSymmetric(a, b);
    JaccardSymmetric(Ngrams(a, 2), Ngrams(b, 2));
  }

  lemma LevenshteinSimilaritySymmetric(a: string, b: string)
    ensures LevenshteinSimilarity(a, b) == LevenshteinSimilarity(b, a)
  {
    LevenshteinProperties(a, b);
    assert Max(|a|, |b|) == Max(|b|, |a|);
  }

  lemma JaccardSymmetric(x: set<string>, y: set<string>)
    ensures Jaccard(x, y) == Jaccard(y, x)
  {
    assert x * y == y * x;
  }

  lemma CommonPrefixSymmetric(a: string, b: string)
    ensures CommonPrefix(a, b) == CommonPrefix(b, a)
  {
    assert Min3(|a|, |b|, 4) == Min3(|b|, |a|, 4);
    PrefixFromSymmetric(a, b, Min3(|a|, |b|, 4), 0);
  }

  lemma {:induction false} PrefixFromSymmetric(a: string, b: string, limit: nat, i: nat)
    requires i <= limit <= |a| && limit <= |b|
    requires forall k :: 0 <= k < i ==> a[k] == b[k]
    ensures PrefixFrom(a, b, limit, i) == PrefixFrom(b, a, limit, i)
    decreases limit - i
  {
    if i < limit && a[i] == b[i] {
      PrefixFromSymmetric(a, b, limit, i + 1);
    }
  }

  /** The blended score is symmetric whenever the Jaro part is. */
  lemma ScoreSymmetric(a: string, b: string)
    requires Jaro(a, b) == Jaro(b, a)
    ensures CalculateNormalizedSimilarity(a, b) == CalculateNormalizedSimilarity(b, a)
  {
    ScorePartsSymmetric(a, b);
    assert JaroWinkler(a, b) == JaroWinkler(b, a);
  }

  // ---------------------------------------------------------------------
  // FindSimilarNames
  // ---------------------------------------------------------------------

  datatype SimilarPair = SimilarPair(file1: ArchiveFile, file2: ArchiveFile, similarity: real)

  /** The fast length check: with both names non-empty, their length ratio
      must lie within [0.4, 2.5]. */
  predicate RatioGate(len1: nat, len2: nat)
  {
    len1 == 0 || len2 == 0
    || (0.4 <= len1 as real / len2 as real <= 2.5)
  }

  /** A pair FindSimilarNames reports: different sizes, normalized names of
      compatible length and a score at or above the threshold. */
  predicate Accepted(f1: ArchiveFile, f2: ArchiveFile, threshold: int)
  {
    Keeps(f1, f2, NormalizeFilename(f1.name), NormalizeFilename(f2.name), threshold)
  }

  /** The pair filter on already normalized names. */
  predicate Keeps(f1: ArchiveFile, f2: ArchiveFile, norm1: string, norm2: string, threshold: int)
  {
    f1.size != f2.size && RatioGate(|norm1|, |norm2|)
    && CalculateNormalizedSimilarity(norm1, norm2) >= threshold as real
  }

  function Accepts(threshold: int): (ArchiveFile, ArchiveFile) -> bool
  {
    (f1: ArchiveFile, f2: ArchiveFile) => Accepted(f1, f2, threshold)
  }

  function PairOf(f1: ArchiveFile, f2: ArchiveFile): SimilarPair
  {
    ScoredPair(f1, f2, NormalizeFilename(f1.name), NormalizeFilename(f2.name))
  }

  function ScoredPair(f1: ArchiveFile, f2: ArchiveFile, norm1: string, norm2: string): SimilarPair
  {
    SimilarPair(f1, f2, CalculateNormalizedSimilarity(norm1, norm2))
  }

  /** The pairs (files[i], files[b]) with i < b < j that accept keeps, in
      order of b. */
  function Row(files: seq<ArchiveFile>, accept: (ArchiveFile, ArchiveFile) -> bool, i: nat, j: nat)
    : seq<(ArchiveFile, ArchiveFile)>
    requires i < |files| && j <= |files|
  {
    if j <= i + 1 then []
    else
      Row(files, accept, i, j - 1)
      + (if accept(files[i], files[j - 1]) then [(files[i], files[j - 1])] else [])
  }

  /** The kept pairs whose first member comes before position i, row by row. */
  function Rows(files: seq<ArchiveFile>, accept: (ArchiveFile, ArchiveFile) -> bool, i: nat)
    : seq<(ArchiveFile, ArchiveFile)>
    requires i <= |files|
  {
    if i == 0 then [] else Rows(files, accept, i - 1) + Row(files, accept, i - 1, |files|)
  }

  lemma {:induction false} RowMembers(files: seq<ArchiveFile>, accept: (ArchiveFile, ArchiveFile) -> bool, i: nat, j: nat)
    requires i < |files| && j <= |files|
    ensures forall p :: p in Row(files, accept, i, j) <==>
      exists b :: i < b < j && accept(files[i], files[b]) && p == (files[i], files[b])
  {
    if j > i + 1 {
      RowMembers(files, accept, i, j - 1);
    }
  }

  lemma {:induction false} RowsMembers(files: seq<ArchiveFile>, accept: (ArchiveFile, ArchiveFile) -> bool, i: nat)
    requires i <= |files|
    ensures forall p :: p in Rows(files, accept, i) <==>
      exists a, b :: 0 <= a < i && a < b < |files| && accept(files[a], files[b]) && p == (files[a], files[b])
  {
    if i > 0 {
      RowsMembers(files, accept, i - 1);
      RowMembers(files, accept, i - 1, |files|);
    }
  }

  /** The pairs of files, each with its score. */
  function Scored(ps: seq<(ArchiveFile, ArchiveFile)>, score: (ArchiveFile, ArchiveFile) -> SimilarPair)
    : (r: seq<SimilarPair>)
    ensures |r| == |ps|
  {
    if ps == [] then []
    else
      var p := ps[|ps| - 1];
      Scored(ps[..|ps| - 1], score) + [score(p.0, p.1)]
  }

  lemma {:induction false} ScoredAt(ps: seq<(ArchiveFile, ArchiveFile)>,
                                    score: (ArchiveFile, ArchiveFile) -> SimilarPair, k: nat)
    requires k < |ps|
    ensures Scored(ps, score)[k] == score(ps[k].0, ps[k].1)
  {
    var n := |ps| - 1;
    if k < n {
      ScoredAt(ps[..n], score, k);
    }
  }

  function Scorer(): (ArchiveFile, ArchiveFile) -> SimilarPair
  {
    (f1: ArchiveFile, f2: ArchiveFile) => PairOf(f1, f2)
  }

  /** What FindSimilarNames reports, in the order of a sequential run. */
  function SimilarNames(files: seq<ArchiveFile>, threshold: int): seq<SimilarPair>
  {
    Scored(Rows(files, Accepts(threshold), |files|), Scorer())
  }

  /** The reported pairs are exactly the accepted pairs i < j with their
      scores; so every reported pair has different sizes, passes the length
      gate and meets the threshold, and fewer than two files give nothing. */
  lemma FoundPairs(files: seq<ArchiveFile>, threshold: int)
    ensures forall p :: p in SimilarNames(files, threshold) <==>
      exists a, b :: 0 <= a < b < |files| && Accepted(files[a], files[b], threshold)
        && p == PairOf(files[a], files[b])
    ensures |files| < 2 ==> SimilarNames(files, threshold) == []
  {
    var accept, score := Accepts(threshold), Scorer();
    ScoredRowsMembers(files, accept, score);
    forall p | p in SimilarNames(files, threshold)
      ensures exists a, b :: (0 <= a < b < |files| && Accepted(files[a], files[b], threshold)
        && p == PairOf(files[a], files[b]))
    {
      var a, b :| 0 <= a < b < |files| && accept(files[a], files[b]) && p == score(files[a], files[b]);
      assert Accepted(files[a], files[b], threshold) && p == PairOf(files[a], files[b]);
    }
    forall a, b | 0 <= a < b < |files| && Accepted(files[a], files[b], threshold)
      ensures PairOf(files[a], files[b]) in SimilarNames(files, threshold)
    {
      assert accept(files[a], files[b]);
      assert score(files[a], files[b]) == PairOf(files[a], files[b]);
    }
    if |files| < 2 {
      assert Rows(files, accept, 0) == [];
      if |files| == 1 {
        assert Row(files, accept, 0, 1) == [];
      }
    }
  }

  /** The scored rows hold each accepted pair a < b, with its score, and
      nothing else. */
  lemma ScoredRowsMembers(files: seq<ArchiveFile>, accept: (ArchiveFile, ArchiveFile) -> bool,
                          score: (ArchiveFile, ArchiveFile) -> SimilarPair)
    ensures forall p :: p in Scored(Rows(files, accept, |files|), score) <==>
      exists a, b :: 0 <= a < b < |files| && accept(files[a], files[b]) && p == score(files[a], files[b])
  {
    var rows := Rows(files, accept, |files|);
    RowsMembers(files, accept, |files|);
    var r := Scored(rows, score);
    forall p | p in r
      ensures exists a, b :: 0 <= a < b < |files| && accept(files[a], files[b]) && p == score(files[a], files[b])
    {
      var k :| 0 <= k < |r| && r[k] == p;
      ScoredAt(rows, score, k);
      assert rows[k] in rows;
      var a, b :| 0 <= a < |files| && a < b < |files| && accept(files[a], files[b]) && rows[k] == (files[a], files[b]);
      assert p == score(files[a], files[b]);
    }
    forall a, b | 0 <= a < b < |files| && accept(files[a], files[b])
      ensures score(files[a], files[b]) in r
    {
      assert (files[a], files[b]) in rows;
      var k :| 0 <= k < |rows| && rows[k] == (files[a], files[b]);
      ScoredAt(rows, score, k);
      assert r[k] == score(files[a], files[b]);
    }
  }

  /** The length-ratio check of the pair filter. */
  method LengthRatioOk(len1: nat, len2: nat) returns (ok: bool)
    ensures ok == RatioGate(len1, len2)
  {
    ok := true;
    if len1 > 0 && len2 > 0 {
      var ratio := len1 as real / len2 as real;
      ok := !(ratio < 0.4 || ratio > 2.5);
    }
  }

  /** One comparison of the pair filter. */
  method ComparePair(f1: ArchiveFile, f2: ArchiveFile, norm1: string, norm2: string, threshold: int)
    returns (found: bool, pair: SimilarPair)
    ensures found == Keeps(f1, f2, norm1, norm2, threshold)
    ensures found ==> pair == ScoredPair(f1, f2, norm1, norm2)
  {
    found, pair := false, SimilarPair(f1, f2, 0.0);
    if f1.size != f2.size {
      var gate := LengthRatioOk(|norm1|, |norm2|);
      if gate {
        var similarity := CalculateNormalizedSimilarity(norm1, norm2);
        if similarity >= threshold as real {
          found, pair := true, SimilarPair(f1, f2, similarity);
        }
      }
    }
  }

  lemma {:induction false} ScoredAppend(a: seq<(ArchiveFile, ArchiveFile)>, b: seq<(ArchiveFile, ArchiveFile)>,
                     score: (ArchiveFile, ArchiveFile) -> SimilarPair)
    ensures Scored(a + b, score) == Scored(a, score) + Scored(b, score)
  {
    if b == [] {
      assert a + b == a;
    } else {
      var n := |b| - 1;
      ScoredAppend(a, b[..n], score);
      assert (a + b)[..|a + b| - 1] == a + b[..n];
    }
  }

  /** norm applied to the name of each file, in order. */
  function MapNames(files: seq<ArchiveFile>, norm: string -> string): (r: seq<string>)
    ensures |r| == |files|
  {
    if files == [] then []
    else MapNames(files[..|files| - 1], norm) + [norm(files[|files| - 1].name)]
  }

  lemma {:induction false} MapNamesAt(files: seq<ArchiveFile>, norm: string -> string, q: nat)
    requires q < |files|
    ensures MapNames(files, norm)[q] == norm(files[q].name)
  {
    var n := |files| - 1;
    if q < n {
      MapNamesAt(files[..n], norm, q);
    }
  }

  lemma MapNamesSnoc(files: seq<ArchiveFile>, norm: string -> string, k: nat)
    requires k < |files|
    ensures MapNames(files[..k + 1], norm) == MapNames(files[..k], norm) + [norm(files[k].name)]
  {
    assert files[..k + 1][..k] == files[..k];
  }

  /** The normalized names computed before the worker pool starts. */
  method NormalizeAll(files: seq<ArchiveFile>) returns (normalized: seq<string>)
    ensures normalized == MapNames(files, NormalizeFilename)
  {
    normalized := [];
    var k := 0;
    while k < |files|
      invariant 0 <= k <= |files|
      invariant normalized == MapNames(files[..k], NormalizeFilename)
    {
      MapNamesSnoc(files, NormalizeFilename, k);
      normalized := normalized + [NormalizeFilename(files[k].name)];
      k := k + 1;
    }
    assert files[..k] == files;
  }

  /** One comparison step of a row: a kept pair is appended with its score. */
  lemma RowExtend(files: seq<ArchiveFile>, accept: (ArchiveFile, ArchiveFile) -> bool,
                  score: (ArchiveFile, ArchiveFile) -> SimilarPair, i: nat, j: nat,
                  row: seq<SimilarPair>, found: bool, pair: SimilarPair)
    requires i < j < |files|
    requires row == Scored(Row(files, accept, i, j), score)
    requires found == accept(files[i], files[j])
    requires found ==> pair == score(files[i], files[j])
    ensures (if found then row + [pair] else row) == Scored(Row(files, accept, i, j + 1), score)
  {
    var pr := (files[i], files[j]);
    if found {
      ScoredAppend(Row(files, accept, i, j), [pr], score);
      assert Scored([pr], score) == [score(pr.0, pr.1)];
    } else {
      assert Row(files, accept, i, j + 1) == Row(files, accept, i, j) + [];
      assert Row(files, accept, i, j) + [] == Row(files, accept, i, j);
    }
  }

  /** accept and score agree, on the files, with the pair filter and the
      scorer applied to the precomputed normalized names. */
  predicate Normalizes(files: seq<ArchiveFile>, normalized: seq<string>, threshold: int,
                       accept: (ArchiveFile, ArchiveFile) -> bool, score: (ArchiveFile, ArchiveFile) -> SimilarPair)
    requires |normalized| == |files|
  {
    (forall a, b {:trigger Keeps(files[a], files[b], normalized[a], normalized[b], threshold)} ::
      0 <= a < |files| && 0 <= b < |files| ==>
        accept(files[a], files[b]) == Keeps(files[a], files[b], normalized[a], normalized[b], threshold))
    && (forall a, b {:trigger ScoredPair(files[a], files[b], normalized[a], normalized[b])} ::
      0 <= a < |files| && 0 <= b < |files| ==>
        score(files[a], files[b]) == ScoredPair(files[a], files[b], normalized[a], normalized[b]))
  }

  /** The names computed once up front give the same filter and scores. */
  lemma PrecomputedNames(files: seq<ArchiveFile>, threshold: int)
    ensures Normalizes(files, MapNames(files, NormalizeFilename), threshold, Accepts(threshold), Scorer())
  {
    forall q | 0 <= q < |files| {
      MapNamesAt(files, NormalizeFilename, q);
    }
  }

  /** One worker job: file i against every later file. The filter and the
      scorer are named by accept and score, which are the pair predicate and
      PairOf. */
  method ScanRow(files: seq<ArchiveFile>, normalized: seq<string>, threshold: int, i: nat,
                 ghost accept: (ArchiveFile, ArchiveFile) -> bool, ghost score: (ArchiveFile, ArchiveFile) -> SimilarPair)
    returns (row: seq<SimilarPair>)
    requires i < |files| && |normalized| == |files|
    requires Normalizes(files, normalized, threshold, accept, score)
    ensures row == Scored(Row(files, accept, i, |files|), score)
  {
    row := [];
    var j := i + 1;
    while j < |files|
      invariant i + 1 <= j <= |files|
      invariant row == Scored(Row(files, accept, i, j), score)
    {
      var found, pair := ComparePair(files[i], files[j], normalized[i], normalized[j], threshold);
      RowExtend(files, accept, score, i, j, row, found, pair);
      if found {
        row := row + [pair];
      }
      j := j + 1;
    }
  }

  /** One job's row appended to the rows before it. */
  lemma RowsExtend(files: seq<ArchiveFile>, accept: (ArchiveFile, ArchiveFile) -> bool,
                   score: (ArchiveFile, ArchiveFile) -> SimilarPair, i: nat)
    requires i < |files|
    ensures Scored(Rows(files, accept, i + 1), score)
      == Scored(Rows(files, accept, i), score) + Scored(Row(files, accept, i, |files|), score)
  {
    ScoredAppend(Rows(files, accept, i), Row(files, accept, i, |files|), score);
  }

  /** The worker pool's jobs, one per file, run in order. */
  method RunJobs(files: seq<ArchiveFile>, normalized: seq<string>, threshold: int,
                 ghost accept: (ArchiveFile, ArchiveFile) -> bool, ghost score: (ArchiveFile, ArchiveFile) -> SimilarPair)
    returns (pairs: seq<SimilarPair>)
    requires |normalized| == |files|
    requires Normalizes(files, normalized, threshold, accept, score)
    ensures pairs == Scored(Rows(files, accept, |files|), score)
  {
    pairs := [];
    var i := 0;
    while i < |files|
      invariant 0 <= i <= |files|
      invariant pairs == Scored(Rows(files, accept, i), score)
    {
      var row := ScanRow(files, normalized, threshold, i, accept, score);
      RowsExtend(files, accept, score, i);
      pairs := pairs + row;
      i := i + 1;
    }
  }

  /** FindSimilarNames, with its workers' jobs run in order. */
  method FindSimilarNames(files: seq<ArchiveFile>, threshold: int) returns (pairs: seq<SimilarPair>)
    ensures pairs == SimilarNames(files, threshold)
  {
    if |files| < 2 {
      FoundPairs(files, threshold);
      return [];
    }
    var normalized := NormalizeAll(files);
    PrecomputedNames(files, threshold);
    pairs := RunJobs(files, normalized, threshold, Accepts(threshold), Scorer());
  }
}
