/** internal/web/server.go: the dashboard's in-memory report and the pure
    helpers of its handlers — the pruning of a deleted path from the report,
    the removal of groups marked as good, the filtering of ignored groups in
    the /report answer, the content type by extension, the sanitised preview
    cache key and the archive test of /preview. Filesystem actions enter as
    their outcome; the group hashes and the ignored-group table, whose code
    is not part of this model, enter as function parameters. */
module Web {

  import opened Text
  import opened Scanner
  import opened Reporter
  import Archive

  // ---------------------------------------------------------------------
  // Pruning a deleted path (the /delete handler)
  // ---------------------------------------------------------------------

  /** The files of a group other than those at path p, in order. */
  function WithoutPath(fs: seq<FileInfo>, p: string): (r: seq<FileInfo>)
    ensures |r| <= |fs|
  {
    if fs == [] then []
    else
      var f := fs[|fs| - 1];
      WithoutPath(fs[..|fs| - 1], p) + (if f.path != p then [f] else [])
  }

  /** A group after the deletion: kept with its remaining files when at
      least two remain, dropped otherwise. */
  function PruneGroup(g: Group, p: string): seq<Group>
  {
    var nf := WithoutPath(g.files, p);
    if |nf| >= 2 then [g.(files := nf)] else []
  }

  function Pruned(gs: seq<Group>, p: string): seq<Group>
  {
    if gs == [] then [] else Pruned(gs[..|gs| - 1], p) + PruneGroup(gs[|gs| - 1], p)
  }

  /** The inner loop over one group's files. */
  method RemoveFile(fs: seq<FileInfo>, p: string) returns (nf: seq<FileInfo>)
    ensures nf == WithoutPath(fs, p)
  {
    nf := [];
    var i := 0;
    while i < |fs|
      invariant 0 <= i <= |fs|
      invariant nf == WithoutPath(fs[..i], p)
    {
      assert fs[..i + 1][..i] == fs[..i];
      if fs[i].path != p {
        nf := nf + [fs[i]];
      }
      i := i + 1;
    }
    assert fs[..i] == fs;
  }

  /** The outer loop over a list of groups. */
  method PruneGroups(gs: seq<Group>, p: string) returns (r: seq<Group>)
    ensures r == Pruned(gs, p)
  {
    r := [];
    var i := 0;
    while i < |gs|
      invariant 0 <= i <= |gs|
      invariant r == Pruned(gs[..i], p)
    {
      assert gs[..i + 1][..i] == gs[..i];
      var g := gs[i];
      var nf := RemoveFile(g.files, p);
      if |nf| >= 2 {
        r := r + [g.(files := nf)];
      }
      i := i + 1;
    }
    assert gs[..i] == gs;
  }

  /** The remaining files are exactly those not at p, in their old order. */
  lemma {:induction false} WithoutPathOrder(fs: seq<FileInfo>, p: string) returns (idx: seq<nat>)
    ensures var r := WithoutPath(fs, p);
      && |idx| == |r|
      && (forall k :: 0 <= k < |idx| ==> idx[k] < |fs| && r[k] == fs[idx[k]] && r[k].path != p)
      && (forall k, l :: 0 <= k < l < |idx| ==> idx[k] < idx[l])
      && (forall i :: 0 <= i < |fs| && fs[i].path != p ==> i in idx)
  {
    if fs == [] {
      idx := [];
    } else {
      var n := |fs| - 1;
      var init := fs[..n];
      var pre := WithoutPathOrder(init, p);
      var front := WithoutPath(init, p);
      var r := WithoutPath(fs, p);
      assert forall i :: 0 <= i < n ==> init[i] == fs[i];
      if fs[n].path != p {
        assert r == front + [fs[n]];
        idx := pre + [n];
        KeptIndex(fs, p, front, pre);
      } else {
        assert r == front;
        idx := pre;
      }
      forall i | 0 <= i < |fs| && fs[i].path != p
        ensures i in idx
      {
        if i < n {
          assert i in pre;
        }
      }
    }
  }

  /** The kept last file extends the index map of the earlier files. */
  lemma KeptIndex(fs: seq<FileInfo>, p: string, front: seq<FileInfo>, pre: seq<nat>)
    requires fs != [] && fs[|fs| - 1].path != p && |pre| == |front|
    requires forall k :: 0 <= k < |pre| ==> pre[k] < |fs| - 1 && front[k] == fs[pre[k]] && front[k].path != p
    requires forall k, l :: 0 <= k < l < |pre| ==> pre[k] < pre[l]
    ensures var r, idx := front + [fs[|fs| - 1]], pre + [|fs| - 1];
      && (forall k :: 0 <= k < |idx| ==> idx[k] < |fs| && r[k] == fs[idx[k]] && r[k].path != p)
      && (forall k, l :: 0 <= k < l < |idx| ==> idx[k] < idx[l])
  {
  }

  lemma WithoutPathMembers(fs: seq<FileInfo>, p: string, f: FileInfo)
    ensures f in WithoutPath(fs, p) <==> f in fs && f.path != p
  {
    var idx := WithoutPathOrder(fs, p);
    var r := WithoutPath(fs, p);
    if f in fs && f.path != p {
      var i :| 0 <= i < |fs| && fs[i] == f;
      var k :| 0 <= k < |idx| && idx[k] == i;
      assert r[k] == f;
    }
  }

  /** Removing a path that no file has changes nothing. */
  lemma {:induction false} WithoutAbsentPath(fs: seq<FileInfo>, p: string)
    requires forall j :: 0 <= j < |fs| ==> fs[j].path != p
    ensures WithoutPath(fs, p) == fs
  {
    if fs != [] {
      var n := |fs| - 1;
      WithoutAbsentPath(fs[..n], p);
      assert fs[..n] + [fs[n]] == fs;
    }
  }

  /** What /delete leaves in a list of groups: no group holds p, every group
      has at least two files, and the groups kept are, in their old order,
      exactly the old groups with at least two files other than p, each with
      p's files removed. */
  lemma {:induction false} PrunedOrder(gs: seq<Group>, p: string) returns (idx: seq<nat>)
    ensures var r := Pruned(gs, p);
      && |idx| == |r|
      && (forall k :: 0 <= k < |idx| ==>
            idx[k] < |gs| && r[k] == gs[idx[k]].(files := WithoutPath(gs[idx[k]].files, p)))
      && (forall k, l :: 0 <= k < l < |idx| ==> idx[k] < idx[l])
      && (forall i :: 0 <= i < |gs| && |WithoutPath(gs[i].files, p)| >= 2 ==> i in idx)
      && (forall k :: 0 <= k < |r| ==> |r[k].files| >= 2)
  {
    if gs == [] {
      idx := [];
    } else {
      var n := |gs| - 1;
      var init := gs[..n];
      var pre := PrunedOrder(init, p);
      idx := PrunedStep(gs, p, pre);
    }
  }

  /** A kept last group extends the index map of the earlier groups. */
  lemma KeptGroup(gs: seq<Group>, p: string, front: seq<Group>, pre: seq<nat>)
    requires gs != [] && |WithoutPath(gs[|gs| - 1].files, p)| >= 2 && |pre| == |front|
    requires forall k :: 0 <= k < |pre| ==>
      pre[k] < |gs| - 1 && front[k] == gs[pre[k]].(files := WithoutPath(gs[pre[k]].files, p))
    requires forall k, l :: 0 <= k < l < |pre| ==> pre[k] < pre[l]
    requires forall k :: 0 <= k < |front| ==> |front[k].files| >= 2
    ensures var g := gs[|gs| - 1];
      var r, idx := front + [g.(files := WithoutPath(g.files, p))], pre + [|gs| - 1];
      && (forall k :: 0 <= k < |idx| ==>
            idx[k] < |gs| && r[k] == gs[idx[k]].(files := WithoutPath(gs[idx[k]].files, p)))
      && (forall k, l :: 0 <= k < l < |idx| ==> idx[k] < idx[l])
      && (forall k :: 0 <= k < |r| ==> |r[k].files| >= 2)
  {
  }

  /** The last group's step of PrunedOrder. */
  lemma PrunedStep(gs: seq<Group>, p: string, pre: seq<nat>) returns (idx: seq<nat>)
    requires gs != []
    requires var r := Pruned(gs[..|gs| - 1], p);
      && |pre| == |r|
      && (forall k :: 0 <= k < |pre| ==>
            pre[k] < |gs| - 1 && r[k] == gs[pre[k]].(files := WithoutPath(gs[pre[k]].files, p)))
      && (forall k, l :: 0 <= k < l < |pre| ==> pre[k] < pre[l])
      && (forall i :: 0 <= i < |gs| - 1 && |WithoutPath(gs[i].files, p)| >= 2 ==> i in pre)
      && (forall k :: 0 <= k < |r| ==> |r[k].files| >= 2)
    ensures var r := Pruned(gs, p);
      && |idx| == |r|
      && (forall k :: 0 <= k < |idx| ==>
            idx[k] < |gs| && r[k] == gs[idx[k]].(files := WithoutPath(gs[idx[k]].files, p)))
      && (forall k, l :: 0 <= k < l < |idx| ==> idx[k] < idx[l])
      && (forall i :: 0 <= i < |gs| && |WithoutPath(gs[i].files, p)| >= 2 ==> i in idx)
      && (forall k :: 0 <= k < |r| ==> |r[k].files| >= 2)
  {
    var n := |gs| - 1;
    var front := Pruned(gs[..n], p);
    var r := Pruned(gs, p);
    var g := gs[n];
    var nf := WithoutPath(g.files, p);
    if |nf| >= 2 {
      assert r == front + [g.(files := nf)];
      idx := pre + [n];
      KeptGroup(gs, p, front, pre);
    } else {
      assert r == front;
      idx := pre;
    }
    forall i | 0 <= i < |gs| && |WithoutPath(gs[i].files, p)| >= 2
      ensures i in idx
    {
      if i < n {
        assert i in pre;
      }
    }
  }

  /** No group left by /delete contains the deleted path. */
  lemma PrunedNoPath(gs: seq<Group>, p: string)
    ensures forall k, j :: 0 <= k < |Pruned(gs, p)| && 0 <= j < |Pruned(gs, p)[k].files| ==>
              Pruned(gs, p)[k].files[j].path != p
  {
    var idx := PrunedOrder(gs, p);
    var r := Pruned(gs, p);
    forall k, j | 0 <= k < |r| && 0 <= j < |r[k].files|
      ensures r[k].files[j].path != p
    {
      var fs := gs[idx[k]].files;
      var fidx := WithoutPathOrder(fs, p);
      assert r[k].files == WithoutPath(fs, p);
    }
  }

  /** Groups already without p's files and with at least two files each are
      left as they are. */
  lemma {:induction false} PrunedFixed(gs: seq<Group>, p: string)
    requires forall k :: 0 <= k < |gs| ==> |gs[k].files| >= 2
    requires forall k :: 0 <= k < |gs| ==> WithoutPath(gs[k].files, p) == gs[k].files
    ensures Pruned(gs, p) == gs
  {
    if gs != [] {
      var n := |gs| - 1;
      var init := gs[..n];
      assert forall k :: 0 <= k < n ==> init[k] == gs[k];
      PrunedFixed(init, p);
      var g := gs[n];
      assert g.(files := g.files) == g;
      assert PruneGroup(g, p) == [g];
      SplitLast(gs);
    }
  }

  lemma SplitLast(gs: seq<Group>)
    requires gs != []
    ensures gs[..|gs| - 1] + [gs[|gs| - 1]] == gs
  {
  }

  /** A second deletion of the same path leaves the groups as they are. */
  lemma PrunedIdempotent(gs: seq<Group>, p: string)
    ensures Pruned(Pruned(gs, p), p) == Pruned(gs, p)
  {
    var idx := PrunedOrder(gs, p);
    PrunedNoPath(gs, p);
    var r := Pruned(gs, p);
    forall k | 0 <= k < |r|
      ensures WithoutPath(r[k].files, p) == r[k].files
    {
      WithoutAbsentPath(r[k].files, p);
    }
    PrunedFixed(r, p);
  }

  // ---------------------------------------------------------------------
  // Filtering groups (/mark-as-good and /report)
  // ---------------------------------------------------------------------

  /** The groups that keep accepts, in order. */
  function FilterGroups(gs: seq<Group>, keep: Group -> bool): (r: seq<Group>)
    ensures |r| <= |gs|
    ensures forall g :: g in r ==> g in gs && keep(g)
  {
    if gs == [] then []
    else
      var g := gs[|gs| - 1];
      FilterGroups(gs[..|gs| - 1], keep) + (if keep(g) then [g] else [])
  }

  method FilterGroupsLoop(gs: seq<Group>, keep: Group -> bool) returns (r: seq<Group>)
    ensures r == FilterGroups(gs, keep)
  {
    r := [];
    var i := 0;
    while i < |gs|
      invariant 0 <= i <= |gs|
      invariant r == FilterGroups(gs[..i], keep)
    {
      assert gs[..i + 1][..i] == gs[..i];
      if keep(gs[i]) {
        r := r + [gs[i]];
      }
      i := i + 1;
    }
    assert gs[..i] == gs;
  }

  /** Every accepted group survives the filter. */
  lemma {:induction false} FilterGroupsKeeps(gs: seq<Group>, keep: Group -> bool, g: Group)
    requires g in gs && keep(g)
    ensures g in FilterGroups(gs, keep)
  {
    var n := |gs| - 1;
    if gs[n] != g {
      assert g in gs[..n] by {
        var i :| 0 <= i < |gs| && gs[i] == g;
        assert gs[..n][i] == g;
      }
      FilterGroupsKeeps(gs[..n], keep, g);
    }
  }

  /** The groups whose Hash() differs from h. */
  function NotHashed(hashOf: Group -> string, h: string): Group -> bool
  {
    g => hashOf(g) != h
  }

  /** /report shows a group unless there is a cache and it lists the group's
      hash as ignored. */
  function Shown(cachePresent: bool, isIgnored: string -> bool, hashOf: Group -> string): Group -> bool
  {
    g => !(cachePresent && isIgnored(hashOf(g)))
  }

  /** /mark-as-good keeps exactly the groups whose hash is not h. */
  lemma MarkedRemoved(gs: seq<Group>, hashOf: Group -> string, h: string, g: Group)
    ensures g in FilterGroups(gs, NotHashed(hashOf, h)) <==> g in gs && hashOf(g) != h
  {
    if g in gs && hashOf(g) != h {
      FilterGroupsKeeps(gs, NotHashed(hashOf, h), g);
    }
  }

  // ---------------------------------------------------------------------
  // The report
  // ---------------------------------------------------------------------

  /** reporter.Report, as far as the handlers change it. */
  class Report {
    var totalFiles: int
    var sizeGroups: seq<Group>
    var similarGroups: seq<Group>
    var similarCount: int
    var visualGroups: seq<Group>
    var visualCount: int

    constructor (total: int, sizes: seq<Group>, similar: seq<Group>, visuals: seq<Group>)
      ensures totalFiles == total && sizeGroups == sizes
      ensures similarGroups == similar && similarCount == |similar|
      ensures visualGroups == visuals && visualCount == |visuals|
    {
      totalFiles := total;
      sizeGroups := sizes;
      similarGroups := similar;
      similarCount := |similar|;
      visualGroups := visuals;
      visualCount := |visuals|;
    }

    /** /delete: removed says whether the file was moved or removed; a
        failure answers 500 and leaves the report alone. On success the file
        count drops by one whether or not the path was in a group, the
        similar and size groups are pruned, and the visual groups stay. */
    method Delete(path: string, removed: bool) returns (status: int)
      modifies this
      ensures !removed ==> status == 500
      ensures !removed ==> totalFiles == old(totalFiles) && sizeGroups == old(sizeGroups)
                           && similarGroups == old(similarGroups) && similarCount == old(similarCount)
      ensures removed ==> status == 200 && totalFiles == old(totalFiles) - 1
      ensures removed ==> similarGroups == Pruned(old(similarGroups), path)
      ensures removed ==> similarCount == |similarGroups|
      ensures removed ==> sizeGroups == Pruned(old(sizeGroups), path)
      ensures visualGroups == old(visualGroups) && visualCount == old(visualCount)
    {
      if !removed {
        return 500;
      }
      totalFiles := totalFiles - 1;
      var newGroups := PruneGroups(similarGroups, path);
      similarGroups := newGroups;
      similarCount := |newGroups|;
      var newSizeGroups := PruneGroups(sizeGroups, path);
      sizeGroups := newSizeGroups;
      return 200;
    }

    /** /mark-as-good: an empty request answers 400; otherwise the groups
        whose Hash() equals the hash of the request's files leave all three
        lists. The counts are not updated. */
    method MarkAsGood(files: seq<FileInfo>, groupHash: seq<FileInfo> -> string, hashOf: Group -> string)
      returns (status: int)
      modifies this
      ensures |files| == 0 ==> status == 400
      ensures |files| == 0 ==> sizeGroups == old(sizeGroups) && similarGroups == old(similarGroups)
                               && visualGroups == old(visualGroups)
      ensures |files| > 0 ==> status == 200
      ensures |files| > 0 ==>
        var keep := NotHashed(hashOf, groupHash(files));
        && similarGroups == FilterGroups(old(similarGroups), keep)
        && visualGroups == FilterGroups(old(visualGroups), keep)
        && sizeGroups == FilterGroups(old(sizeGroups), keep)
      ensures totalFiles == old(totalFiles) && similarCount == old(similarCount)
      ensures visualCount == old(visualCount)
    {
      if |files| == 0 {
        return 400;
      }
      var hash := groupHash(files);
      var keep := NotHashed(hashOf, hash);
      similarGroups := FilterGroupsLoop(similarGroups, keep);
      visualGroups := FilterGroupsLoop(visualGroups, keep);
      sizeGroups := FilterGroupsLoop(sizeGroups, keep);
      return 200;
    }
  }

  /** The /report answer: idle without a report, otherwise a copy with the
      ignored groups left out of all three lists, and no similar groups
      when exclude_similar is "true". */
  datatype ReportView =
    | Idle
    | View(totalFiles: int, sizeGroups: seq<Group>, similarGroups: seq<Group>,
           similarCount: int, visualGroups: seq<Group>, visualCount: int)

  method GetReport(report: Report?, cachePresent: bool, isIgnored: string -> bool,
                   hashOf: Group -> string, excludeSimilar: string) returns (v: ReportView)
    ensures report == null ==> v == Idle
    ensures report != null ==>
      var shown := Shown(cachePresent, isIgnored, hashOf);
      v == View(report.totalFiles, FilterGroups(report.sizeGroups, shown),
                if excludeSimilar == "true" then [] else FilterGroups(report.similarGroups, shown),
                report.similarCount, FilterGroups(report.visualGroups, shown), report.visualCount)
  {
    if report == null {
      return Idle;
    }
    var shown := Shown(cachePresent, isIgnored, hashOf);
    var sizes := FilterGroupsLoop(report.sizeGroups, shown);
    var similar := FilterGroupsLoop(report.similarGroups, shown);
    var visuals := FilterGroupsLoop(report.visualGroups, shown);
    if excludeSimilar == "true" {
      similar := [];
    }
    v := View(report.totalFiles, sizes, similar, report.similarCount, visuals, report.visualCount);
  }

  /** Without a cache nothing is ignored. */
  lemma NoCacheShowsAll(gs: seq<Group>, isIgnored: string -> bool, hashOf: Group -> string)
    ensures FilterGroups(gs, Shown(false, isIgnored, hashOf)) == gs
    decreases |gs|
  {
    if gs != [] {
      NoCacheShowsAll(gs[..|gs| - 1], isIgnored, hashOf);
      assert gs[..|gs| - 1] + [gs[|gs| - 1]] == gs;
    }
  }

  // ---------------------------------------------------------------------
  // getContentType
  // ---------------------------------------------------------------------

  const OctetStream: string := "application/octet-stream"

  const ContentTypes: map<string, string> := map[
    ".jpg" := "image/jpeg", ".jpeg" := "image/jpeg", ".png" := "image/png",
    ".webp" := "image/webp", ".stl" := "model/stl", ".obj" := "model/obj",
    ".mp4" := "video/mp4", ".webm" := "video/webm", ".mov" := "video/quicktime",
    ".mkv" := "video/x-matroska", ".avi" := "video/x-msvideo"]

  /** The served type: unknown extensions, and only those, get
      application/octet-stream. */
  function ContentType(filename: string): (r: string)
    ensures r == OctetStream <==> Lower(Ext(filename)) !in ContentTypes
  {
    KnownTypesDistinctFromFallback();
    var ext := Lower(Ext(filename));
    if ext in ContentTypes then ContentTypes[ext] else OctetStream
  }

  /** No known extension maps to the fallback type. */
  lemma KnownTypesDistinctFromFallback()
    ensures forall e :: e in ContentTypes ==> ContentTypes[e] != OctetStream
  {
  }

  /** The type does not depend on the case of the name. */
  lemma ContentTypeCaseInsensitive(filename: string)
    ensures ContentType(Lower(filename)) == ContentType(filename)
  {
    ExtLower(filename);
    LowerIdempotent(Ext(filename));
  }

  /** The image and video extensions of the archive scanner all have an
      entry of the matching kind. */
  lemma PreviewExtTypes()
    ensures forall e :: e in Archive.ImageExts ==> e in ContentTypes && HasPrefix(ContentTypes[e], "image/")
    ensures forall e :: e in Archive.VideoExts ==> e in ContentTypes && HasPrefix(ContentTypes[e], "video/")
  {
  }

  /** An image that the archive scanner picks as a preview is served with an
      image type, and a video with a video type. */
  lemma PreviewTypes(filename: string)
    ensures Archive.IsImageFile(filename) ==> HasPrefix(ContentType(filename), "image/")
    ensures Archive.IsVideoFile(filename) ==> HasPrefix(ContentType(filename), "video/")
  {
    ExtLower(filename);
    PreviewExtTypes();
    var ext := Lower(Ext(filename));
    assert ext == Ext(Lower(filename));
    assert ext in ContentTypes ==> ContentType(filename) == ContentTypes[ext];
  }

  // ---------------------------------------------------------------------
  // The preview cache key and the archive test
  // ---------------------------------------------------------------------

  /** strings.Map over the key: letters and digits stay, every other rune
      becomes an underscore. */
  function Sanitize(key: string): (r: string)
    ensures |r| == |key|
    ensures forall i :: 0 <= i < |r| ==> IsAlnum(r[i]) || r[i] == '_'
    ensures forall i :: 0 <= i < |r| ==> IsAlnum(key[i]) ==> r[i] == key[i]
  {
    seq(|key|, i requires 0 <= i < |key| => if IsAlnum(key[i]) then key[i] else '_')
  }

  /** fmt.Sprintf("%x_%s", path, internalPath), sanitised. The key keeps
      the hex form of the archive path intact and has as many runes as the
      unsanitised key; sanitising it again changes nothing. */
  function CacheKey(path: string, internalPath: string): (key: string)
    ensures |key| == |HexString(path)| + 1 + |internalPath|
    ensures key[..|HexString(path)|] == HexString(path)
    ensures key[|HexString(path)|] == '_'
    ensures Sanitize(key) == key
  {
    var h := HexString(path);
    var raw := h + "_" + internalPath;
    var key := Sanitize(raw);
    assert forall i :: 0 <= i < |h| ==> raw[i] == h[i];
    assert key[..|h|] == h;
    key
  }

  /** The /preview test for a direct archive path: one of the archive
      extensions, in any case. */
  predicate IsArchivePath(path: string)
    ensures IsArchivePath(path) ==> Ext(path) != [] && Ext(path)[0] == '.' && 3 <= |Ext(path)| <= 4
  {
    Lower(Ext(path)) in ArchiveSubExts
  }

  /** Every path the scanner types as zip, rar or 7z is treated as an archive. */
  lemma ArchiveTypesAreArchives(path: string)
    requires GetArchiveType(path) in {"zip", "rar", "7z"}
    ensures IsArchivePath(path)
  {
  }
}
