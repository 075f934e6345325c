/** internal/db/cache.go: the SQLite-backed cache. Its tables are maps keyed
    by their primary key, so an INSERT OR REPLACE is a map update; the JSON
    encoding of the scan results is left abstract (a stored value reads back
    as written). The scan fingerprint sorts the caller's slice by path and
    hashes the (path, modification time) sequence; SHA-256 is the parameter
    digest. */
module Db {

  import opened Text
  import opened Scanner
  import opened Reporter

  /** preview_cache: path -> (internal_path, mod_time). */
  type PreviewTable = map<string, (string, string)>

  /** scan_cache: fingerprint -> the decoded results_json. */
  type ScanTable = map<string, seq<Group>>

  /** GetPreviewPath: a hit only when a row for path exists and its stored
      modification time is modTime; otherwise ("", false). */
  function PreviewLookup(t: PreviewTable, path: string, modTime: string): (r: (string, bool))
    ensures r.1 <==> path in t && t[path].1 == modTime
    ensures r.0 == if r.1 then t[path].0 else ""
  {
    if path in t && t[path].1 == modTime then (t[path].0, true) else ("", false)
  }

  /** GetSimilarities: the stored groups, or (nil, false) when none are. */
  function ScanLookup(t: ScanTable, fingerprint: string): (r: (seq<Group>, bool))
    ensures r.1 <==> fingerprint in t
    ensures r.0 == if r.1 then t[fingerprint] else []
  {
    if fingerprint in t then (t[fingerprint], true) else ([], false)
  }

  // ---------------------------------------------------------------------
  // The cache object
  // ---------------------------------------------------------------------

  class Cache {
    var previews: PreviewTable
    var scans: ScanTable

    /** NewCache: CREATE TABLE IF NOT EXISTS keeps whatever the database
        file already holds. */
    constructor (previews0: PreviewTable, scans0: ScanTable)
      ensures previews == previews0 && scans == scans0
    {
      previews := previews0;
      scans := scans0;
    }

    method GetPreviewPath(path: string, modTime: string) returns (internalPath: string, ok: bool)
      ensures (internalPath, ok) == PreviewLookup(previews, path, modTime)
    {
      if path in previews {
        var (stored, cachedModTime) := previews[path];
        if cachedModTime == modTime {
          return stored, true;
        }
      }
      return "", false;
    }

    /** INSERT OR REPLACE keyed by path: only that row changes. */
    method PutPreviewPath(path: string, internalPath: string, modTime: string)
      modifies this
      ensures previews == old(previews)[path := (internalPath, modTime)]
      ensures scans == old(scans)
    {
      previews := previews[path := (internalPath, modTime)];
    }

    method GetSimilarities(fingerprint: string) returns (groups: seq<Group>, ok: bool)
      ensures (groups, ok) == ScanLookup(scans, fingerprint)
    {
      if fingerprint in scans {
        return scans[fingerprint], true;
      }
      return [], false;
    }

    /** INSERT OR REPLACE keyed by fingerprint: the last write wins. */
    method PutSimilarities(fingerprint: string, groups: seq<Group>)
      modifies this
      ensures scans == old(scans)[fingerprint := groups]
      ensures previews == old(previews)
    {
      scans := scans[fingerprint := groups];
    }

    /** Sorts files by path in place (a side effect the caller sees) and
        returns the hex digest of the sorted (path, modification time)
        sequence. */
    method CalculateFingerprint(files: array<ArchiveFile>, digest: seq<byte> -> seq<byte>)
      returns (fingerprint: string)
      modifies files
      ensures SortedByPath(files[..])
      ensures multiset(files[..]) == old(multiset(files[..]))
      ensures fingerprint == Fingerprint(files[..], digest)
    {
      SortByPath(files);
      var written: seq<byte> := [];
      var i := 0;
      while i < files.Length
        invariant 0 <= i <= files.Length
        invariant written == HashInput(files[..i])
      {
        var f := files[i];
        assert files[..i + 1][..i] == files[..i];
        written := written + Bytes(f.path) + Bytes(f.modTime.text);
        i := i + 1;
      }
      assert files[..i] == files[..];
      fingerprint := HexBytes(digest(written));
    }
  }

  // ---------------------------------------------------------------------
  // Preview and scan tables: what a put does to later gets
  // ---------------------------------------------------------------------

  /** After PutPreviewPath(p, ip, m), GetPreviewPath(p, m) returns (ip, true). */
  lemma PutThenGetPreview(t: PreviewTable, path: string, internalPath: string, modTime: string)
    ensures PreviewLookup(t[path := (internalPath, modTime)], path, modTime) == (internalPath, true)
  {
  }

  /** A put for one path leaves every lookup of another path as it was. */
  lemma PutPreviewOthers(t: PreviewTable, path: string, internalPath: string, modTime: string,
                         other: string, otherModTime: string)
    requires other != path
    ensures PreviewLookup(t[path := (internalPath, modTime)], other, otherModTime)
         == PreviewLookup(t, other, otherModTime)
  {
  }

  /** Re-putting a path under a new modification time makes lookups with
      any other modification time miss. */
  lemma PutPreviewStale(t: PreviewTable, path: string, internalPath: string, modTime: string,
                        oldModTime: string)
    requires oldModTime != modTime
    ensures PreviewLookup(t[path := (internalPath, modTime)], path, oldModTime) == ("", false)
  {
  }

  /** The last PutSimilarities for a fingerprint is what GetSimilarities
      returns; other fingerprints are unaffected. */
  lemma PutThenGetScan(t: ScanTable, fingerprint: string, groups: seq<Group>, other: string)
    ensures ScanLookup(t[fingerprint := groups], fingerprint) == (groups, true)
    ensures other != fingerprint ==>
      ScanLookup(t[fingerprint := groups], other) == ScanLookup(t, other)
  {
  }

  // ---------------------------------------------------------------------
  // The fingerprint
  // ---------------------------------------------------------------------

  /** Sorted by path, as sort.Slice with files[i].Path < files[j].Path
      leaves it: no later path is below an earlier one. */
  predicate SortedByPath(s: seq<ArchiveFile>)
  {
    forall k, l :: 0 <= k < l < |s| ==> !Less(s[l].path, s[k].path)
  }

  predicate DistinctPaths(s: seq<ArchiveFile>)
  {
    forall k, l :: 0 <= k < l < |s| ==> s[k].path != s[l].path
  }

  /** The bytes written to the hasher: each file's path, then its time. */
  function HashInput(fs: seq<ArchiveFile>): seq<byte>
  {
    if fs == [] then []
    else
      var f := fs[|fs| - 1];
      HashInput(fs[..|fs| - 1]) + Bytes(f.path) + Bytes(f.modTime.text)
  }

  /** %x of the digest: 64 lower-case hex digits for SHA-256. */
  function Fingerprint(fs: seq<ArchiveFile>, digest: seq<byte> -> seq<byte>): (r: string)
    ensures |r| == 2 * |digest(HashInput(fs))|
  {
    HexBytes(digest(HashInput(fs)))
  }

  lemma NotLessAntisymmetric(a: string, b: string)
    requires !Less(a, b) && !Less(b, a)
    ensures a == b
  {
    if a != b {
      LessTotal(a, b);
    }
  }

  lemma NotLessTransitive(a: string, b: string, c: string)
    requires !Less(b, a) && !Less(c, b)
    ensures !Less(c, a)
  {
    if a != b && b != c {
      LessTotal(a, b);
      LessTotal(b, c);
      LessTransitive(a, b, c);
      LessAsymmetric(a, c);
    } else if a == b && b == c {
      LessIrreflexive(a);
    }
  }

  method Swap(a: array<ArchiveFile>, i: int, j: int)
    requires 0 <= i < j < a.Length
    modifies a
    ensures a[..] == old(a[..])[i := old(a[j])][j := old(a[i])]
    ensures a[i] == old(a[j]) && a[j] == old(a[i])
    ensures forall k :: 0 <= k < a.Length && k != i && k != j ==> a[k] == old(a[k])
    ensures multiset(a[..]) == old(multiset(a[..]))
  {
    a[i], a[j] := a[j], a[i];
  }

  /** The sort of CalculateFingerprint, as insertion sort. */
  method SortByPath(a: array<ArchiveFile>)
    modifies a
    ensures SortedByPath(a[..])
    ensures multiset(a[..]) == old(multiset(a[..]))
  {
    var i := 0;
    while i < a.Length
      invariant 0 <= i <= a.Length
      invariant SortedByPath(a[..i])
      invariant multiset(a[..]) == old(multiset(a[..]))
    {
      Insert(a, i);
      i := i + 1;
    }
    assert a[..a.Length] == a[..];
  }

  /** One pass of the insertion sort: a[i] moves down into the sorted a[..i]. */
  method Insert(a: array<ArchiveFile>, i: nat)
    requires i < a.Length && SortedByPath(a[..i])
    modifies a
    ensures SortedByPath(a[..i + 1])
    ensures multiset(a[..]) == old(multiset(a[..]))
  {
    var j := i;
    while j > 0 && Less(a[j].path, a[j - 1].path)
      invariant 0 <= j <= i
      invariant forall k, l :: 0 <= k < l <= i && k != j && l != j ==> !Less(a[l].path, a[k].path)
      invariant forall l :: j < l <= i ==> !Less(a[l].path, a[j].path)
      invariant multiset(a[..]) == old(multiset(a[..]))
    {
      LessAsymmetric(a[j].path, a[j - 1].path);
      Swap(a, j - 1, j);
      j := j - 1;
    }
    forall k, l | 0 <= k < l <= i
      ensures !Less(a[l].path, a[k].path)
    {
      if l == j && k < j - 1 {
        NotLessTransitive(a[k].path, a[j - 1].path, a[j].path);
      }
    }
  }

  /** s with the element at position k removed. */
  function Without(s: seq<ArchiveFile>, k: nat): (r: seq<ArchiveFile>)
    requires k < |s|
    ensures |r| == |s| - 1
    ensures forall i :: 0 <= i < |r| ==> r[i] == if i < k then s[i] else s[i + 1]
    ensures multiset(r) == multiset(s) - multiset{s[k]}
  {
    assert s == s[..k] + [s[k]] + s[k + 1..];
    s[..k] + s[k + 1..]
  }

  lemma SortedTail(s: seq<ArchiveFile>)
    requires |s| > 0
    ensures SortedByPath(s) ==> SortedByPath(s[1..])
    ensures DistinctPaths(s) ==> DistinctPaths(s[1..])
  {
    if SortedByPath(s) {
      forall k, l | 0 <= k < l < |s| - 1
        ensures !Less(s[1..][l].path, s[1..][k].path)
      {
        assert s[1..][l] == s[l + 1] && s[1..][k] == s[k + 1];
      }
    }
    if DistinctPaths(s) {
      forall k, l | 0 <= k < l < |s| - 1
        ensures s[1..][k].path != s[1..][l].path
      {
        assert s[1..][l] == s[l + 1] && s[1..][k] == s[k + 1];
      }
    }
  }

  /** Two path-sorted sequences with the same elements and distinct paths
      are the same sequence. */
  lemma {:induction false} SortedUnique(a: seq<ArchiveFile>, b: seq<ArchiveFile>)
    requires SortedByPath(a) && SortedByPath(b) && DistinctPaths(a)
    requires multiset(a) == multiset(b)
    ensures a == b
    decreases |a|
  {
    assert |a| == |multiset(a)| == |multiset(b)| == |b|;
    if |a| > 0 {
      SortedHeads(a, b);
      assert Without(a, 0) == a[1..] && Without(b, 0) == b[1..];
      SortedTail(a);
      SortedTail(b);
      SortedUnique(a[1..], b[1..]);
      ConsEqual(a, b);
    }
  }

  lemma ConsEqual(a: seq<ArchiveFile>, b: seq<ArchiveFile>)
    requires |a| > 0 && |b| > 0 && a[0] == b[0] && a[1..] == b[1..]
    ensures a == b
  {
    assert a == [a[0]] + a[1..] && b == [b[0]] + b[1..];
  }

  /** Both start with the element of least path. */
  lemma SortedHeads(a: seq<ArchiveFile>, b: seq<ArchiveFile>)
    requires SortedByPath(a) && SortedByPath(b) && DistinctPaths(a)
    requires multiset(a) == multiset(b) && |a| > 0
    ensures a[0] == b[0]
  {
    assert a[0] in multiset(b) && |b| > 0;
    assert b[0] in multiset(a);
    var k :| 0 <= k < |b| && b[k] == a[0];
    var m :| 0 <= m < |a| && a[m] == b[0];
    if a[0] != b[0] {
      assert k != 0 && m != 0;
      NotLessAntisymmetric(a[0].path, b[0].path);
      assert false;
    }
  }

  /** Removing one element keeps the paths of the rest distinct from its. */
  lemma {:induction false} DistinctPermutation(s: seq<ArchiveFile>, t: seq<ArchiveFile>)
    requires DistinctPaths(s) && multiset(s) == multiset(t)
    ensures DistinctPaths(t)
    decreases |s|
  {
    if |s| > 0 {
      var x := s[0];
      assert x in multiset(t);
      var k :| 0 <= k < |t| && t[k] == x;
      var t' := Without(t, k);
      PermutationRest(s, t, k);
      SortedTail(s);
      DistinctPermutation(s[1..], t');
      forall l | 0 <= l < |t| && l != k
        ensures t[l].path != x.path
      {
        var y := t[l];
        assert y == (if l < k then t'[l] else t'[l - 1]);
        OtherPathDiffers(s, t', y);
      }
      DistinctWithout(t, k);
    }
  }

  /** Taking the same element out of two permutations leaves permutations. */
  lemma PermutationRest(s: seq<ArchiveFile>, t: seq<ArchiveFile>, k: nat)
    requires |s| > 0 && k < |t| && t[k] == s[0] && multiset(s) == multiset(t)
    ensures multiset(s[1..]) == multiset(Without(t, k))
  {
    assert Without(s, 0) == s[1..];
  }

  /** An element of a permutation of s's tail has a path other than s[0]'s. */
  lemma OtherPathDiffers(s: seq<ArchiveFile>, u: seq<ArchiveFile>, y: ArchiveFile)
    requires |s| > 0 && DistinctPaths(s) && multiset(s[1..]) == multiset(u) && y in u
    ensures y.path != s[0].path
  {
    assert y in multiset(s[1..]);
    var n :| 0 <= n < |s[1..]| && s[1..][n] == y;
    assert s[n + 1] == y;
  }

  /** Distinct paths after removing position k, and a path at k that no
      other position has, make all paths distinct. */
  lemma DistinctWithout(t: seq<ArchiveFile>, k: nat)
    requires k < |t| && DistinctPaths(Without(t, k))
    requires forall l :: 0 <= l < |t| && l != k ==> t[l].path != t[k].path
    ensures DistinctPaths(t)
  {
    var t' := Without(t, k);
    forall p, q | 0 <= p < q < |t|
      ensures t[p].path != t[q].path
    {
      if q < k {
        assert t'[p] == t[p] && t'[q] == t[q];
      } else if k < p {
        assert t'[p - 1] == t[p] && t'[q - 1] == t[q];
      } else if p < k < q {
        assert t'[p] == t[p] && t'[q - 1] == t[q];
      }
    }
  }

  /** The fingerprint does not depend on the order of the files: any two
      inputs with the same files and distinct paths, once sorted, give the
      same fingerprint. */
  lemma FingerprintOrderFree(s1: seq<ArchiveFile>, s2: seq<ArchiveFile>,
                             t1: seq<ArchiveFile>, t2: seq<ArchiveFile>,
                             digest: seq<byte> -> seq<byte>)
    requires multiset(s1) == multiset(s2) && DistinctPaths(s1)
    requires SortedByPath(t1) && multiset(t1) == multiset(s1)
    requires SortedByPath(t2) && multiset(t2) == multiset(s2)
    ensures Fingerprint(t1, digest) == Fingerprint(t2, digest)
  {
    DistinctPermutation(s1, t1);
    SortedUnique(t1, t2);
  }
}
