/** internal/visual/scanner.go: FindVisualDuplicates, the greedy clustering
    of archives whose cached 64-bit perceptual hashes lie within Hamming
    distance 8 of a seed. The visual-hash table of the cache is a map from
    (path, RFC3339 modification time) to the stored hash; an absent cache
    (nil in the source) is None. */
module Visual {

  import opened Wrappers
  import opened Scanner
  import opened Reporter

  /** The visual-hash table read by GetVisualHash. */
  type HashStore = map<(string, string), bv64>

  /** The clustering bound; the caller's threshold argument is ignored. */
  const VisualBound: nat := 8

  const VisualPrefix: string := "Visual Match: "

  /** The lookup key of a file: its path and its RFC3339 modification time. */
  function Key(f: ArchiveFile): (string, string)
  {
    (f.path, f.modTime.rfc3339)
  }

  // ---------------------------------------------------------------------
  // Hamming distance of two 64-bit hashes: the population count of XOR
  // ---------------------------------------------------------------------

  /** The number of set bits among the lowest n bits of x. */
  function BitsBelow(x: bv64, n: nat): (r: nat)
    requires n <= 64
    ensures r <= n
  {
    if n == 0 then 0
    else BitsBelow(x, n - 1) + (if (x >> (n - 1)) & 1 == 1 then 1 else 0)
  }

  function PopCount(x: bv64): nat
  {
    BitsBelow(x, 64)
  }

  function Hamming(a: bv64, b: bv64): (r: nat)
    ensures r <= 64
  {
    PopCount(a ^ b)
  }

  lemma {:induction false} ZeroBits(n: nat)
    requires n <= 64
    ensures BitsBelow(0, n) == 0
  {
    if n > 0 {
      ZeroBits(n - 1);
    }
  }

  /** Every hash is at distance 0 from itself, so a seed is always within the
      bound of itself. */
  lemma HammingSelf(a: bv64)
    ensures Hamming(a, a) == 0
  {
    assert a ^ a == 0;
    ZeroBits(64);
  }

  lemma HammingSymmetric(a: bv64, b: bv64)
    ensures Hamming(a, b) == Hamming(b, a)
  {
    assert a ^ b == b ^ a;
  }

  // ---------------------------------------------------------------------
  // Step 1: the files that have a cached hash, in input order
  // ---------------------------------------------------------------------

  datatype Hashed = Hashed(file: ArchiveFile, hash: bv64)

  function Hashes(files: seq<ArchiveFile>, store: HashStore): (hs: seq<Hashed>)
    ensures |hs| <= |files|
  {
    if |files| == 0 then []
    else
      var f := files[|files| - 1];
      Hashes(files[..|files| - 1], store)
        + (if Key(f) in store then [Hashed(f, store[Key(f)])] else [])
  }

  /** Every entry of hs carries the hash stored under its file's key. */
  predicate Stored(hs: seq<Hashed>, store: HashStore)
  {
    forall m :: 0 <= m < |hs| ==> Key(hs[m].file) in store && hs[m].hash == store[Key(hs[m].file)]
  }

  /** Every collected entry carries its file's stored hash. */
  lemma {:induction false} HashesStored(files: seq<ArchiveFile>, store: HashStore)
    ensures Stored(Hashes(files, store), store)
  {
    if |files| > 0 {
      var n := |files| - 1;
      HashesStored(files[..n], store);
      var front := Hashes(files[..n], store);
      var hs := Hashes(files, store);
      if Key(files[n]) in store {
        assert hs == front + [Hashed(files[n], store[Key(files[n])])];
        assert forall m :: 0 <= m < |front| ==> hs[m] == front[m];
      } else {
        assert hs == front;
      }
    }
  }

  /** The collected entries are exactly the files with a stored hash, taken
      in input order: idx maps each entry to the
      position of its file, and it is strictly increasing. */
  lemma {:induction false} HashesInOrder(files: seq<ArchiveFile>, store: HashStore)
    returns (idx: seq<nat>)
    ensures var hs := Hashes(files, store);
      && |idx| == |hs|
      && (forall k :: 0 <= k < |idx| ==> idx[k] < |files| && hs[k].file == files[idx[k]])
      && (forall k, l :: 0 <= k < l < |idx| ==> idx[k] < idx[l])
      && (forall i :: 0 <= i < |files| && Key(files[i]) in store ==> i in idx)
  {
    if |files| == 0 {
      idx := [];
    } else {
      var n := |files| - 1;
      var init := files[..n];
      var pre := HashesInOrder(init, store);
      var front := Hashes(init, store);
      var hs := Hashes(files, store);
      assert forall i :: 0 <= i < n ==> init[i] == files[i];
      if Key(files[n]) in store {
        assert hs == front + [Hashed(files[n], store[Key(files[n])])];
        idx := pre + [n];
        forall k | 0 <= k < |front|
          ensures hs[k] == front[k]
        {
        }
      } else {
        assert hs == front;
        idx := pre;
      }
      forall i | 0 <= i < |files| && Key(files[i]) in store
        ensures i in idx
      {
        if i < n {
          assert i in pre;
        }
      }
    }
  }

  method CollectHashes(files: seq<ArchiveFile>, store: HashStore) returns (hs: seq<Hashed>)
    ensures hs == Hashes(files, store)
  {
    hs := [];
    var i := 0;
    while i < |files|
      invariant 0 <= i <= |files|
      invariant hs == Hashes(files[..i], store)
    {
      var f := files[i];
      assert files[..i + 1][..i] == files[..i];
      if Key(f) in store {
        hs := hs + [Hashed(f, store[Key(f)])];
      }
      i := i + 1;
    }
    assert files[..i] == files;
  }

  // ---------------------------------------------------------------------
  // Step 2: greedy clustering, reference definition
  // ---------------------------------------------------------------------

  /** The inner loop from position j on: every not yet visited entry within
      the bound of the seed hs[i] joins the group and becomes visited. */
  function Sweep(hs: seq<Hashed>, i: nat, j: nat, visited: set<string>, group: seq<ArchiveFile>)
    : (set<string>, seq<ArchiveFile>)
    requires i < j <= |hs|
    decreases |hs| - j
  {
    if j == |hs| then (visited, group)
    else if hs[j].file.path in visited then Sweep(hs, i, j + 1, visited, group)
    else if Hamming(hs[i].hash, hs[j].hash) <= VisualBound then
      Sweep(hs, i, j + 1, visited + {hs[j].file.path}, group + [hs[j].file])
    else Sweep(hs, i, j + 1, visited, group)
  }

  /** The reported form of a group member; its hash is looked up again. */
  function Info(f: ArchiveFile, store: HashStore): FileInfo
  {
    FileInfo(f.name, f.path, f.size, f.archiveType, f.modTime.rfc3339,
             if Key(f) in store then store[Key(f)] else 0)
  }

  function Infos(g: seq<ArchiveFile>, store: HashStore): (r: seq<FileInfo>)
    ensures |r| == |g|
    ensures forall k :: 0 <= k < |g| ==> r[k] == Info(g[k], store)
  {
    if g == [] then [] else [Info(g[0], store)] + Infos(g[1..], store)
  }

  /** The outer loop from seed position i on. */
  function Clusters(hs: seq<Hashed>, store: HashStore, i: nat, visited: set<string>): seq<Group>
    requires i <= |hs|
    decreases |hs| - i
  {
    if i == |hs| then []
    else if hs[i].file.path in visited then Clusters(hs, store, i + 1, visited)
    else
      var (v, g) := Sweep(hs, i, i + 1, visited + {hs[i].file.path}, [hs[i].file]);
      Emit(g, store) + Clusters(hs, store, i + 1, v)
  }

  /** A group is reported only when it has more than one member; it is named
      after its seed. */
  function Emit(g: seq<ArchiveFile>, store: HashStore): seq<Group>
  {
    if |g| > 1 then [SimilarityGroup(VisualPrefix + g[0].name, Infos(g, store))] else []
  }

  /** FindVisualDuplicates as a function of the files and the cache. */
  function VisualDuplicates(files: seq<ArchiveFile>, cache: Option<HashStore>): seq<Group>
  {
    if cache.None? || |files| < 2 then []
    else
      var hs := Hashes(files, cache.value);
      if |hs| < 2 then [] else Clusters(hs, cache.value, 0, {})
  }

  // ---------------------------------------------------------------------
  // Step 2: the loops
  // ---------------------------------------------------------------------

  /** The inner j-loop for the seed at position i. */
  method SweepFrom(hs: seq<Hashed>, i: nat, visited0: set<string>)
    returns (visited: set<string>, group: seq<ArchiveFile>)
    requires i < |hs|
    ensures (visited, group) == Sweep(hs, i, i + 1, visited0 + {hs[i].file.path}, [hs[i].file])
  {
    visited := visited0 + {hs[i].file.path};
    group := [hs[i].file];
    var j := i + 1;
    while j < |hs|
      invariant i + 1 <= j <= |hs|
      invariant Sweep(hs, i, i + 1, visited0 + {hs[i].file.path}, [hs[i].file])
             == Sweep(hs, i, j, visited, group)
    {
      if hs[j].file.path !in visited {
        var dist := Hamming(hs[i].hash, hs[j].hash);
        if dist <= VisualBound {
          group := group + [hs[j].file];
          visited := visited + {hs[j].file.path};
        }
      }
      j := j + 1;
    }
  }

  /** The conversion of a group to its reported form. */
  method ToInfos(g: seq<ArchiveFile>, store: HashStore) returns (infos: seq<FileInfo>)
    ensures infos == Infos(g, store)
  {
    infos := [];
    var k := 0;
    while k < |g|
      invariant 0 <= k <= |g|
      invariant |infos| == k
      invariant forall m :: 0 <= m < k ==> infos[m] == Info(g[m], store)
    {
      var f := g[k];
      var h: bv64 := if Key(f) in store then store[Key(f)] else 0;
      infos := infos + [FileInfo(f.name, f.path, f.size, f.archiveType, f.modTime.rfc3339, h)];
      k := k + 1;
    }
  }

  method FindVisualDuplicates(files: seq<ArchiveFile>, cache: Option<HashStore>, threshold: int)
    returns (groups: seq<Group>)
    ensures groups == VisualDuplicates(files, cache)
  {
    if cache.None? || |files| < 2 {
      return [];
    }
    var store := cache.value;
    var hs := CollectHashes(files, store);
    if |hs| < 2 {
      return [];
    }
    var visited: set<string> := {};
    groups := [];
    var i := 0;
    while i < |hs|
      invariant 0 <= i <= |hs|
      invariant Clusters(hs, store, 0, {}) == groups + Clusters(hs, store, i, visited)
    {
      if hs[i].file.path !in visited {
        var g;
        visited, g := SweepFrom(hs, i, visited);
        if |g| > 1 {
          var infos := ToInfos(g, store);
          groups := groups + [SimilarityGroup(VisualPrefix + g[0].name, infos)];
        }
      }
      i := i + 1;
    }
  }

  // ---------------------------------------------------------------------
  // Properties of the clustering
  // ---------------------------------------------------------------------

  function Paths(g: seq<ArchiveFile>): set<string>
  {
    set k | 0 <= k < |g| :: g[k].path
  }

  predicate DistinctPaths(g: seq<ArchiveFile>)
  {
    forall k, l :: 0 <= k < l < |g| ==> g[k].path != g[l].path
  }

  /** A member that joins the group of seed hs[i]: an entry of hs within the
      bound of the seed's hash. */
  predicate Joins(hs: seq<Hashed>, i: nat, f: ArchiveFile, store: HashStore)
    requires i < |hs|
  {
    && Key(f) in store
    && Hashed(f, store[Key(f)]) in hs
    && Hamming(hs[i].hash, store[Key(f)]) <= VisualBound
  }

  /** What the inner loop keeps: the group only grows, every new member joins
      the seed and was not visited before, all members are visited and no
      path occurs twice. */
  lemma {:induction false} SweepFacts(hs: seq<Hashed>, store: HashStore, i: nat, j: nat,
                                       visited: set<string>, group: seq<ArchiveFile>)
    requires i < j <= |hs| && Stored(hs, store)
    requires Paths(group) <= visited && DistinctPaths(group)
    ensures var (v, g) := Sweep(hs, i, j, visited, group);
      && |group| <= |g| && g[..|group|] == group
      && visited <= v && Paths(g) <= v && DistinctPaths(g)
      && (forall k :: |group| <= k < |g| ==> Joins(hs, i, g[k], store) && g[k].path !in visited)
    decreases |hs| - j
  {
    if j == |hs| {
    } else if hs[j].file.path in visited {
      SweepFacts(hs, store, i, j + 1, visited, group);
    } else if Hamming(hs[i].hash, hs[j].hash) <= VisualBound {
      var f := hs[j].file;
      var group' := group + [f];
      AppendPaths(group, f);
      SweepFacts(hs, store, i, j + 1, visited + {f.path}, group');
      var (v, g) := Sweep(hs, i, j + 1, visited + {f.path}, group');
      assert g[..|group|] == g[..|group'|][..|group|];
      assert g[|group|] == f;
      assert Hashed(f, store[Key(f)]) == hs[j];
    } else {
      SweepFacts(hs, store, i, j + 1, visited, group);
    }
  }

  /** Appending a member with a new path adds exactly that path and keeps
      the paths distinct. */
  lemma AppendPaths(group: seq<ArchiveFile>, f: ArchiveFile)
    requires DistinctPaths(group) && f.path !in Paths(group)
    ensures Paths(group + [f]) == Paths(group) + {f.path}
    ensures DistinctPaths(group + [f])
  {
    var group' := group + [f];
    forall p | p in Paths(group')
      ensures p in Paths(group) + {f.path}
    {
      var k :| 0 <= k < |group'| && group'[k].path == p;
      if k < |group| {
        assert group[k] == group'[k];
      }
    }
    forall p | p in Paths(group)
      ensures p in Paths(group')
    {
      var k :| 0 <= k < |group| && group[k].path == p;
      assert group'[k] == group[k];
    }
    assert group'[|group|] == f;
    forall k | 0 <= k < |group|
      ensures group'[k].path != f.path
    {
      assert group'[k] == group[k];
      assert group'[k].path in Paths(group);
    }
  }

  lemma PathsOfOne(f: ArchiveFile)
    ensures Paths([f]) == {f.path} && DistinctPaths([f])
  {
    assert [f][0] == f;
  }

  /** A reported group: at least two members, named after its seed, every
      member within the bound of the seed's hash, no path twice. */
  predicate WellFormed(g: Group)
  {
    && g.SimilarityGroup?
    && |g.files| >= 2
    && g.baseName == VisualPrefix + g.files[0].name
    && (forall k :: 0 <= k < |g.files| ==> Hamming(g.files[0].pHash, g.files[k].pHash) <= VisualBound)
    && (forall k, l :: 0 <= k < l < |g.files| ==> g.files[k].path != g.files[l].path)
  }

  /** No path is reported in two different groups. */
  predicate Disjoint(gs: seq<Group>)
  {
    forall a, b, k, l :: 0 <= a < b < |gs| && 0 <= k < |gs[a].files| && 0 <= l < |gs[b].files|
      ==> gs[a].files[k].path != gs[b].files[l].path
  }

  /** Every reported member is the reported form of an entry of hs. */
  predicate FromHashes(gs: seq<Group>, hs: seq<Hashed>, store: HashStore)
  {
    forall a, k :: 0 <= a < |gs| && 0 <= k < |gs[a].files| ==>
      exists m :: 0 <= m < |hs| && gs[a].files[k] == Info(hs[m].file, store)
  }

  /** A group built from a sweep is well formed when it has two members. */
  lemma GroupOfSweep(hs: seq<Hashed>, store: HashStore, i: nat, g: seq<ArchiveFile>)
    requires i < |hs| && Stored(hs, store) && |g| >= 2 && g[0] == hs[i].file && DistinctPaths(g)
    requires forall k :: 1 <= k < |g| ==> Joins(hs, i, g[k], store)
    ensures WellFormed(SimilarityGroup(VisualPrefix + g[0].name, Infos(g, store)))
    ensures FromHashes([SimilarityGroup(VisualPrefix + g[0].name, Infos(g, store))], hs, store)
  {
    var infos := Infos(g, store);
    assert infos[0].pHash == hs[i].hash;
    HammingSelf(hs[i].hash);
    forall k | 0 <= k < |infos|
      ensures Hamming(infos[0].pHash, infos[k].pHash) <= VisualBound
      ensures exists m :: 0 <= m < |hs| && infos[k] == Info(hs[m].file, store)
    {
      if k == 0 {
        assert infos[0] == Info(hs[i].file, store);
      } else {
        assert Joins(hs, i, g[k], store);
        var m :| 0 <= m < |hs| && hs[m] == Hashed(g[k], store[Key(g[k])]);
        assert infos[k] == Info(hs[m].file, store);
      }
    }
    forall k, l | 0 <= k < l < |infos|
      ensures infos[k].path != infos[l].path
    {
      assert infos[k].path == g[k].path && infos[l].path == g[l].path;
    }
  }

  /** Groups as the outer loop produces them: well formed, disjoint, made of
      entries of hs, and free of the paths visited before they were built. */
  predicate Facts(gs: seq<Group>, hs: seq<Hashed>, store: HashStore, visited: set<string>)
  {
    && (forall a :: 0 <= a < |gs| ==> WellFormed(gs[a]))
    && Disjoint(gs)
    && FromHashes(gs, hs, store)
    && (forall a, k :: 0 <= a < |gs| && 0 <= k < |gs[a].files| ==> gs[a].files[k].path !in visited)
  }

  /** Groups built before a later visited set v, all of whose paths are in v,
      combine with groups free of v. */
  lemma ConcatFacts(front: seq<Group>, rest: seq<Group>, hs: seq<Hashed>, store: HashStore,
                    visited: set<string>, v: set<string>)
    requires Facts(front, hs, store, visited) && Facts(rest, hs, store, v) && visited <= v
    requires forall a, k :: 0 <= a < |front| && 0 <= k < |front[a].files| ==> front[a].files[k].path in v
    ensures Facts(front + rest, hs, store, visited)
  {
    var gs := front + rest;
    forall a, k | 0 <= a < |gs| && 0 <= k < |gs[a].files|
      ensures exists m :: 0 <= m < |hs| && gs[a].files[k] == Info(hs[m].file, store)
      ensures gs[a].files[k].path !in visited
    {
      if a >= |front| {
        assert gs[a] == rest[a - |front|];
      }
    }
    forall a, b, k, l | 0 <= a < b < |gs| && 0 <= k < |gs[a].files| && 0 <= l < |gs[b].files|
      ensures gs[a].files[k].path != gs[b].files[l].path
    {
      if b >= |front| {
        assert gs[b] == rest[b - |front|];
      }
      if a >= |front| {
        assert gs[a] == rest[a - |front|];
      }
    }
    forall a | 0 <= a < |gs|
      ensures WellFormed(gs[a])
    {
      if a >= |front| {
        assert gs[a] == rest[a - |front|];
      }
    }
  }

  /** The group of the seed hs[i], if it has two members. */
  lemma SeedFacts(hs: seq<Hashed>, store: HashStore, i: nat, visited: set<string>)
    requires i < |hs| && Stored(hs, store) && hs[i].file.path !in visited
    ensures var (v, g) := Sweep(hs, i, i + 1, visited + {hs[i].file.path}, [hs[i].file]);
      && visited <= v && |g| > 0 && g[0] == hs[i].file
      && var front := Emit(g, store);
      && Facts(front, hs, store, visited)
      && (forall a, k :: 0 <= a < |front| && 0 <= k < |front[a].files| ==> front[a].files[k].path in v)
  {
    var seed := hs[i].file;
    var v0 := visited + {seed.path};
    PathsOfOne(seed);
    SweepFacts(hs, store, i, i + 1, v0, [seed]);
    var (v, g) := Sweep(hs, i, i + 1, v0, [seed]);
    assert g[0] == seed by { assert g[..1] == [seed]; }
    if |g| > 1 {
      var infos := Infos(g, store);
      GroupOfSweep(hs, store, i, g);
      forall k | 0 <= k < |infos|
        ensures infos[k].path in v && infos[k].path !in visited
      {
        assert infos[k].path == g[k].path;
        assert g[k].path in Paths(g);
      }
    }
  }

  /** The outer loop's product from position i on. */
  lemma {:induction false} ClustersFacts(hs: seq<Hashed>, store: HashStore, i: nat, visited: set<string>)
    requires i <= |hs| && Stored(hs, store)
    ensures Facts(Clusters(hs, store, i, visited), hs, store, visited)
    decreases |hs| - i
  {
    if i == |hs| {
    } else if hs[i].file.path in visited {
      ClustersFacts(hs, store, i + 1, visited);
    } else {
      SeedFacts(hs, store, i, visited);
      var (v, g) := Sweep(hs, i, i + 1, visited + {hs[i].file.path}, [hs[i].file]);
      ClustersFacts(hs, store, i + 1, v);
      ConcatFacts(Emit(g, store), Clusters(hs, store, i + 1, v), hs, store, visited, v);
    }
  }

  /** The reported groups, in terms of the input: each is well formed, no path
      is in two groups, and every member is the reported form of an input file
      that has a stored hash. */
  lemma VisualGroups(files: seq<ArchiveFile>, store: HashStore)
    ensures var gs := VisualDuplicates(files, Some(store));
      && (forall a :: 0 <= a < |gs| ==> WellFormed(gs[a]))
      && Disjoint(gs)
      && (forall a, k :: 0 <= a < |gs| && 0 <= k < |gs[a].files| ==>
            exists f :: f in files && Key(f) in store && gs[a].files[k] == Info(f, store))
  {
    if |files| >= 2 && |Hashes(files, store)| >= 2 {
      var hs := Hashes(files, store);
      var idx := HashesInOrder(files, store);
      HashesStored(files, store);
      ClustersFacts(hs, store, 0, {});
      assert Facts(Clusters(hs, store, 0, {}), hs, store, {});
      var gs := Clusters(hs, store, 0, {});
      forall a, k | 0 <= a < |gs| && 0 <= k < |gs[a].files|
        ensures exists f :: f in files && Key(f) in store && gs[a].files[k] == Info(f, store)
      {
        var m :| 0 <= m < |hs| && gs[a].files[k] == Info(hs[m].file, store);
        assert hs[m].file == files[idx[m]];
      }
    }
  }

  /** Fewer than two hashed files never form a group, so the explicit early
      return in the source agrees with the clustering itself. */
  lemma FewHashesNoGroups(hs: seq<Hashed>, store: HashStore, visited: set<string>)
    requires |hs| < 2
    ensures Clusters(hs, store, 0, visited) == []
  {
    if |hs| == 1 {
      assert hs[0].file.path in visited ==> Clusters(hs, store, 1, visited) == [];
    }
  }

  /** The sweep of a seed starts its group. */
  lemma SeedFirst(hs: seq<Hashed>, store: HashStore, i: nat, visited: set<string>)
    requires i < |hs| && Stored(hs, store)
    ensures var g := Sweep(hs, i, i + 1, visited + {hs[i].file.path}, [hs[i].file]).1;
      |g| > 0 && g[0] == hs[i].file
  {
    var seed := hs[i].file;
    PathsOfOne(seed);
    SweepFacts(hs, store, i, i + 1, visited + {seed.path}, [seed]);
    var g := Sweep(hs, i, i + 1, visited + {seed.path}, [seed]).1;
    assert g[..1] == [seed];
  }

  /** The seed of each group: the groups come in increasing seed position and
      each group starts with its seed. */
  lemma {:induction false} ClusterSeeds(hs: seq<Hashed>, store: HashStore, i: nat, visited: set<string>)
    returns (seeds: seq<nat>)
    requires i <= |hs| && Stored(hs, store)
    ensures var gs := Clusters(hs, store, i, visited);
      && |seeds| == |gs|
      && (forall a :: 0 <= a < |seeds| ==>
            i <= seeds[a] < |hs| && |gs[a].files| > 0 && gs[a].files[0] == Info(hs[seeds[a]].file, store))
      && (forall a, b :: 0 <= a < b < |seeds| ==> seeds[a] < seeds[b])
    decreases |hs| - i
  {
    if i == |hs| {
      seeds := [];
    } else if hs[i].file.path in visited {
      seeds := ClusterSeeds(hs, store, i + 1, visited);
    } else {
      SeedFirst(hs, store, i, visited);
      var (v, g) := Sweep(hs, i, i + 1, visited + {hs[i].file.path}, [hs[i].file]);
      var rest := ClusterSeeds(hs, store, i + 1, v);
      if |g| > 1 {
        seeds := [i] + rest;
      } else {
        seeds := rest;
      }
    }
  }

  /** The positions idx[seeds[a]], one per seed. */
  function Compose(idx: seq<nat>, seeds: seq<nat>): (r: seq<nat>)
    requires forall a :: 0 <= a < |seeds| ==> seeds[a] < |idx|
    ensures |r| == |seeds|
    ensures forall a :: 0 <= a < |seeds| ==> r[a] == idx[seeds[a]]
  {
    if seeds == [] then [] else [idx[seeds[0]]] + Compose(idx, seeds[1..])
  }

  /** Groups are reported in the input order of their seeds, and each starts
      with its seed. */
  lemma VisualSeedOrder(files: seq<ArchiveFile>, store: HashStore) returns (pos: seq<nat>)
    ensures var gs := VisualDuplicates(files, Some(store));
      && |pos| == |gs|
      && (forall a :: 0 <= a < |pos| ==>
            pos[a] < |files| && |gs[a].files| > 0 && gs[a].files[0] == Info(files[pos[a]], store))
      && (forall a, b :: 0 <= a < b < |pos| ==> pos[a] < pos[b])
  {
    var hs := Hashes(files, store);
    if |files| < 2 || |hs| < 2 {
      pos := [];
    } else {
      var idx := HashesInOrder(files, store);
      HashesStored(files, store);
      var seeds := ClusterSeeds(hs, store, 0, {});
      var gs := Clusters(hs, store, 0, {});
      assert VisualDuplicates(files, Some(store)) == gs;
      pos := Compose(idx, seeds);
      forall a | 0 <= a < |pos|
        ensures pos[a] < |files| && |gs[a].files| > 0 && gs[a].files[0] == Info(files[pos[a]], store)
      {
        assert hs[seeds[a]].file == files[idx[seeds[a]]];
      }
      forall a, b | 0 <= a < b < |pos|
        ensures pos[a] < pos[b]
      {
        assert seeds[a] < seeds[b];
      }
    }
  }
}
