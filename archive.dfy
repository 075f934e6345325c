/** internal/archive/extractor.go: format dispatch, the entry classifiers,
    preview and model selection over an archive's entry list, and the key
    comparison of two extracted archives. The ZIP, RAR and 7z readers are
    parameters: each is a function from the archive's path and format to
    what the library returns for that archive. */
module Archive {

  import opened Wrappers
  import opened Text

  type int64 = x: int | -0x8000_0000_0000_0000 <= x < 0x8000_0000_0000_0000

  /** PreviewInfo: an entry of an archive listing. */
  datatype PreviewInfo = PreviewInfo(path: string, size: int64)

  datatype Format = Zip | Rar | SevenZip

  /** The container format chosen by the switch on the lowercased extension. */
  function FormatOf(archivePath: string): (r: Option<Format>)
    ensures r.Some? <==> Lower(Ext(archivePath)) in {".zip", ".rar", ".7z"}
  {
    var ext := Lower(Ext(archivePath));
    if ext == ".zip" then Some(Zip)
    else if ext == ".rar" then Some(Rar)
    else if ext == ".7z" then Some(SevenZip)
    else None
  }

  /** The dispatch is case-insensitive: a path ending in any spelling of
      ".zip", ".rar" or ".7z" selects that reader. */
  lemma FormatOfSuffix(p: string, x: string)
    requires HasSuffix(p, x) && x != [] && x[0] == '.'
    requires forall k :: 1 <= k < |x| ==> x[k] != '.' && x[k] != '/'
    ensures Lower(x) == ".zip" ==> FormatOf(p) == Some(Zip)
    ensures Lower(x) == ".rar" ==> FormatOf(p) == Some(Rar)
    ensures Lower(x) == ".7z" ==> FormatOf(p) == Some(SevenZip)
    ensures Lower(x) !in {".zip", ".rar", ".7z"} ==> FormatOf(p) == None
  {
    ExtOfSuffix(p, x);
  }

  lemma FormatOfLower(p: string)
    ensures FormatOf(Lower(p)) == FormatOf(p)
  {
    ExtLower(p);
    LowerIdempotent(Ext(p));
  }

  function Unsupported(archivePath: string): string
  {
    "unsupported archive format: " + Lower(Ext(archivePath))
  }

  /** ExtractArchive: the extracted name-to-contents map, or an error. */
  function ExtractArchive(archivePath: string, extract: (string, Format) -> Result<map<string, seq<byte>>, string>)
    : (r: Result<map<string, seq<byte>>, string>)
    ensures FormatOf(archivePath).None? ==> r == Err(Unsupported(archivePath))
    ensures FormatOf(archivePath).Some? ==> r == extract(archivePath, FormatOf(archivePath).value)
  {
    match FormatOf(archivePath)
    case None => Err(Unsupported(archivePath))
    case Some(f) => extract(archivePath, f)
  }

  /** GetFileFromArchive: one entry's contents, or an error. */
  function GetFileFromArchive(archivePath: string, filename: string,
                              get: (string, Format, string) -> Result<seq<byte>, string>)
    : (r: Result<seq<byte>, string>)
    ensures FormatOf(archivePath).None? ==>
      r == Err("unsupported archive format for extraction: " + Lower(Ext(archivePath)))
    ensures FormatOf(archivePath).Some? ==> r == get(archivePath, FormatOf(archivePath).value, filename)
  {
    match FormatOf(archivePath)
    case None => Err("unsupported archive format for extraction: " + Lower(Ext(archivePath)))
    case Some(f) => get(archivePath, f, filename)
  }

  // ---------------------------------------------------------------------
  // Classifiers
  // ---------------------------------------------------------------------

  const ImageExts: seq<string> := [".jpg", ".jpeg", ".png", ".webp"]

  const VideoExts: seq<string> := [".mp4", ".webm", ".mkv", ".mov", ".avi"]

  /** An image: an image extension in any case, outside the junk folders. */
  predicate IsImageFile(filename: string)
  {
    var lower := Lower(filename);
    !Contains(lower, "__macosx") && !Contains(lower, "@eadir") && Ext(lower) in ImageExts
  }

  /** A video: a video extension in any case, outside the junk folders. */
  predicate IsVideoFile(filename: string)
  {
    var lower := Lower(filename);
    !Contains(lower, "__macosx") && !Contains(lower, "@eadir") && Ext(lower) in VideoExts
  }

  /** A model: a name ending in ".stl" or ".obj" in any case, outside
      "__macosx". */
  predicate IsModelFile(filename: string)
  {
    var lower := Lower(filename);
    !Contains(lower, "__macosx") && (HasSuffix(lower, ".stl") || HasSuffix(lower, ".obj"))
  }

  predicate IsSTLFile(filename: string)
  {
    HasSuffix(Lower(filename), ".stl")
  }

  const Keywords: seq<string> := ["full", "whole", "body", "complete", "merged", "single"]

  predicate HasKeyword(filename: string)
  {
    exists i :: 0 <= i < |Keywords| && Contains(Lower(filename), Keywords[i])
  }

  predicate IsPreview(filename: string)
  {
    IsImageFile(filename) || IsModelFile(filename) || IsVideoFile(filename)
  }

  /** Junk folders: anything under "__macosx" is never a preview; "@eadir"
      excludes images and videos but not models. */
  lemma JunkRejected(filename: string)
    ensures Contains(Lower(filename), "__macosx") ==> !IsPreview(filename)
    ensures Contains(Lower(filename), "@eadir") ==> !IsImageFile(filename) && !IsVideoFile(filename)
    ensures !Contains(Lower(filename), "__macosx") && IsSTLFile(filename) ==> IsModelFile(filename)
  {
  }

  /** An image or a video is told by the extension of its name, in any case. */
  lemma MediaExts(filename: string)
    ensures IsImageFile(filename) ==> Lower(Ext(filename)) in ImageExts
    ensures IsVideoFile(filename) ==> Lower(Ext(filename)) in VideoExts
  {
    ExtLower(filename);
  }

  /** So is a model, and an STL file. */
  lemma ModelExts(filename: string)
    ensures IsModelFile(filename) ==> Lower(Ext(filename)) in {".stl", ".obj"}
    ensures IsSTLFile(filename) ==> Lower(Ext(filename)) == ".stl"
  {
    ExtLower(filename);
    ModelExt(Lower(filename));
  }

  /** The three classes are disjoint. */
  lemma ClassesDisjoint(filename: string)
    ensures !(IsImageFile(filename) && IsVideoFile(filename))
    ensures !(IsModelFile(filename) && IsImageFile(filename))
    ensures !(IsModelFile(filename) && IsVideoFile(filename))
  {
    ModelExt(Lower(filename));
    ExtsDisjoint(Ext(Lower(filename)));
  }

  lemma ExtsDisjoint(e: string)
    ensures !(e in ImageExts && e in VideoExts)
    ensures ".stl" !in ImageExts && ".stl" !in VideoExts
    ensures ".obj" !in ImageExts && ".obj" !in VideoExts
  {
  }

  /** A model name's extension is ".stl" or ".obj". */
  lemma ModelExt(lower: string)
    ensures HasSuffix(lower, ".stl") ==> Ext(lower) == ".stl"
    ensures HasSuffix(lower, ".obj") ==> Ext(lower) == ".obj"
  {
    if HasSuffix(lower, ".stl") {
      ExtOfSuffix(lower, ".stl");
    }
    if HasSuffix(lower, ".obj") {
      ExtOfSuffix(lower, ".obj");
    }
  }

  /** Every entry of a class has a non-empty path. */
  lemma ClassifiedNonEmpty()
    ensures forall f :: IsImageFile(f) ==> f != ""
    ensures forall f :: IsVideoFile(f) ==> f != ""
    ensures forall f :: IsModelFile(f) ==> f != ""
  {
  }

  // ---------------------------------------------------------------------
  // ListPreviewsInArchive
  // ---------------------------------------------------------------------

  /** The entries whose path satisfies keep, in listing order. */
  function Filter(files: seq<PreviewInfo>, keep: string -> bool): seq<PreviewInfo>
  {
    if files == [] then []
    else
      Filter(files[..|files| - 1], keep)
      + (if keep(files[|files| - 1].path) then [files[|files| - 1]] else [])
  }

  lemma {:induction false} FilterMembers(files: seq<PreviewInfo>, keep: string -> bool)
    ensures forall f :: f in Filter(files, keep) <==> f in files && keep(f.path)
    ensures |Filter(files, keep)| <= |files|
  {
    if files != [] {
      FilterMembers(files[..|files| - 1], keep);
      assert files == files[..|files| - 1] + [files[|files| - 1]];
    }
  }

  /** Filtering twice keeps what filtering once kept. */
  lemma {:induction false} FilterIdempotent(files: seq<PreviewInfo>, keep: string -> bool)
    ensures Filter(Filter(files, keep), keep) == Filter(files, keep)
  {
    if files != [] {
      var init := files[..|files| - 1];
      FilterIdempotent(init, keep);
      var last := files[|files| - 1];
      if keep(last.path) {
        var r := Filter(init, keep) + [last];
        assert r[..|r| - 1] == Filter(init, keep);
        assert r[|r| - 1] == last;
        assert Filter(r, keep) == Filter(r[..|r| - 1], keep) + [last];
        assert Filter(files, keep) == r;
      } else {
        assert Filter(files, keep) == Filter(init, keep) + [];
        assert Filter(init, keep) + [] == Filter(init, keep);
      }
    }
  }

  /** The listing after format dispatch and filtering. */
  function ListPreviews(archivePath: string, list: (string, Format) -> Result<seq<PreviewInfo>, string>)
    : Result<seq<PreviewInfo>, string>
  {
    match FormatOf(archivePath)
    case None => Err(Unsupported(archivePath))
    case Some(f) =>
      match list(archivePath, f)
      case Err(e) => Err(e)
      case Ok(files) => Ok(Filter(files, IsPreview))
  }

  /** The filter loop of ListPreviewsInArchive. */
  method FilterPreviews(files: seq<PreviewInfo>) returns (previews: seq<PreviewInfo>)
    ensures previews == Filter(files, IsPreview)
  {
    previews := [];
    var i := 0;
    while i < |files|
      invariant 0 <= i <= |files|
      invariant previews == Filter(files[..i], IsPreview)
    {
      var f := files[i];
      assert files[..i + 1][..i] == files[..i];
      if IsImageFile(f.path) || IsModelFile(f.path) || IsVideoFile(f.path) {
        previews := previews + [f];
      }
      i := i + 1;
    }
    assert files[..|files|] == files;
  }

  method ListPreviewsInArchive(archivePath: string, list: (string, Format) -> Result<seq<PreviewInfo>, string>)
    returns (r: Result<seq<PreviewInfo>, string>)
    ensures r == ListPreviews(archivePath, list)
    ensures FormatOf(archivePath).None? ==> r == Err(Unsupported(archivePath))
  {
    var format := FormatOf(archivePath);
    if format.None? {
      return Err(Unsupported(archivePath));
    }
    var files := list(archivePath, format.value);
    if files.Err? {
      return Err(files.error);
    }
    var previews := FilterPreviews(files.value);
    return Ok(previews);
  }

  // ---------------------------------------------------------------------
  // Preview selection
  // ---------------------------------------------------------------------

  /** The running (best, max) of a "largest of a kind" loop after k entries:
      an entry replaces the best only when strictly larger, from 0. */
  function Largest(ps: seq<PreviewInfo>, isKind: string -> bool, k: nat): (string, int)
    requires k <= |ps|
  {
    if k == 0 then ("", 0)
    else
      var prev := Largest(ps, isKind, k - 1);
      if isKind(ps[k - 1].path) && ps[k - 1].size > prev.1 then (ps[k - 1].path, ps[k - 1].size)
      else prev
  }

  /** The loop keeps the first entry of maximal positive size: its size bounds
      every entry of the kind, every earlier entry of the kind is strictly
      smaller, and with no positive-size entry the best stays "". */
  lemma {:induction false} LargestIsFirstMaximal(ps: seq<PreviewInfo>, isKind: string -> bool, k: nat)
    requires k <= |ps|
    ensures Largest(ps, isKind, k).1 >= 0
    ensures forall i :: 0 <= i < k && isKind(ps[i].path) ==> ps[i].size <= Largest(ps, isKind, k).1
    ensures Largest(ps, isKind, k).1 == 0 ==> Largest(ps, isKind, k).0 == ""
    ensures Largest(ps, isKind, k).1 > 0 ==>
      exists i :: 0 <= i < k && isKind(ps[i].path) && ps[i].path == Largest(ps, isKind, k).0
        && ps[i].size == Largest(ps, isKind, k).1
        && forall j :: 0 <= j < i && isKind(ps[j].path) ==> ps[j].size < ps[i].size
  {
    if k > 0 {
      LargestIsFirstMaximal(ps, isKind, k - 1);
      var prev := Largest(ps, isKind, k - 1);
      if isKind(ps[k - 1].path) && ps[k - 1].size > prev.1 {
        assert forall j :: 0 <= j < k - 1 && isKind(ps[j].path) ==> ps[j].size < ps[k - 1].size;
      }
    }
  }

  /** The best stays "" exactly when no entry of the kind has positive size. */
  lemma {:induction false} LargestFound(ps: seq<PreviewInfo>, isKind: string -> bool)
    requires forall f :: isKind(f) ==> f != ""
    ensures Largest(ps, isKind, |ps|).0 != "" <==>
      exists i :: 0 <= i < |ps| && isKind(ps[i].path) && ps[i].size > 0
  {
    LargestIsFirstMaximal(ps, isKind, |ps|);
    var best := Largest(ps, isKind, |ps|);
    if best.1 > 0 {
      var i :| 0 <= i < |ps| && isKind(ps[i].path) && ps[i].path == best.0 && ps[i].size == best.1;
    }
  }

  /** One "largest of a kind" loop of FindPreviewPathInArchive and
      FindBestSTLInArchive. */
  method LargestOfKind(ps: seq<PreviewInfo>, isKind: string -> bool) returns (best: string, maxSize: int)
    ensures (best, maxSize) == Largest(ps, isKind, |ps|)
  {
    best, maxSize := "", 0;
    var i := 0;
    while i < |ps|
      invariant 0 <= i <= |ps|
      invariant (best, maxSize) == Largest(ps, isKind, i)
    {
      var f := ps[i];
      if isKind(f.path) && f.size > maxSize {
        best, maxSize := f.path, f.size;
      }
      i := i + 1;
    }
  }

  /** A model file whose name holds one of the preview keywords. */
  predicate KeywordModelFile(path: string)
  {
    IsModelFile(path) && HasKeyword(path)
  }

  /** The first model whose name holds a keyword, searched from position k. */
  function KeywordModel(ps: seq<PreviewInfo>, k: nat): Option<string>
    requires k <= |ps|
    decreases |ps| - k
  {
    if k == |ps| then None
    else if KeywordModelFile(ps[k].path) then Some(ps[k].path)
    else KeywordModel(ps, k + 1)
  }

  /** A keyword model found from k on is the first model of the list
      from k whose name holds a keyword, of any size. */
  lemma {:induction false} KeywordModelFirst(ps: seq<PreviewInfo>, k: nat)
    requires k <= |ps|
    ensures KeywordModel(ps, k).Some? ==>
      exists i :: k <= i < |ps| && ps[i].path == KeywordModel(ps, k).value && KeywordModelFile(ps[i].path)
        && forall j :: k <= j < i ==> !KeywordModelFile(ps[j].path)
    decreases |ps| - k
  {
    if k == |ps| {
    } else if KeywordModelFile(ps[k].path) {
      assert ps[k].path == KeywordModel(ps, k).value;
    } else {
      KeywordModelFirst(ps, k + 1);
      if KeywordModel(ps, k + 1).Some? {
        var i :| k + 1 <= i < |ps| && ps[i].path == KeywordModel(ps, k + 1).value && KeywordModelFile(ps[i].path)
          && forall j :: k + 1 <= j < i ==> !KeywordModelFile(ps[j].path);
        assert forall j :: k <= j < i ==> !KeywordModelFile(ps[j].path);
      }
    }
  }

  /** The search finds nothing only when no model from k on holds a
      keyword. */
  lemma {:induction false} KeywordModelNone(ps: seq<PreviewInfo>, k: nat)
    requires k <= |ps|
    ensures KeywordModel(ps, k).None? ==> forall i :: k <= i < |ps| ==> !KeywordModelFile(ps[i].path)
    decreases |ps| - k
  {
    if k < |ps| && !KeywordModelFile(ps[k].path) {
      KeywordModelNone(ps, k + 1);
    }
  }

  /** The keyword-model loop. */
  method FirstKeywordModel(ps: seq<PreviewInfo>) returns (r: Option<string>)
    ensures r == KeywordModel(ps, 0)
  {
    var i := 0;
    while i < |ps|
      invariant 0 <= i <= |ps|
      invariant KeywordModel(ps, 0) == KeywordModel(ps, i)
    {
      if KeywordModelFile(ps[i].path) {
        return Some(ps[i].path);
      }
      i := i + 1;
    }
    return None;
  }

  const NoPreview := "no preview found"

  /** The four tiers of FindPreviewPathInArchive over a preview list. */
  function PreviewChoice(ps: seq<PreviewInfo>): Result<string, string>
  {
    if |ps| == 0 then Err(NoPreview)
    else
      var image := Largest(ps, IsImageFile, |ps|).0;
      var video := Largest(ps, IsVideoFile, |ps|).0;
      var model := Largest(ps, IsModelFile, |ps|).0;
      if image != "" then Ok(image)
      else if video != "" then Ok(video)
      else if KeywordModel(ps, 0).Some? then Ok(KeywordModel(ps, 0).value)
      else if model != "" then Ok(model)
      else Err(NoPreview)
  }

  predicate HasPositive(ps: seq<PreviewInfo>, isKind: string -> bool)
  {
    exists i :: 0 <= i < |ps| && isKind(ps[i].path) && ps[i].size > 0
  }

  /** The tiers: the largest image when some image has positive size;
      a video only when none does; a keyword model (of any size) only when
      no image or video has positive size; the largest model last; and the
      "no preview found" error otherwise. */
  lemma PreviewTiers(ps: seq<PreviewInfo>)
    ensures HasPositive(ps, IsImageFile) ==> PreviewChoice(ps) == Ok(Largest(ps, IsImageFile, |ps|).0)
    ensures !HasPositive(ps, IsImageFile) && HasPositive(ps, IsVideoFile) ==>
      PreviewChoice(ps) == Ok(Largest(ps, IsVideoFile, |ps|).0)
    ensures !HasPositive(ps, IsImageFile) && !HasPositive(ps, IsVideoFile) && KeywordModel(ps, 0).Some? ==>
      PreviewChoice(ps) == Ok(KeywordModel(ps, 0).value)
    ensures (!HasPositive(ps, IsImageFile) && !HasPositive(ps, IsVideoFile) && KeywordModel(ps, 0).None?
             && HasPositive(ps, IsModelFile)) ==> PreviewChoice(ps) == Ok(Largest(ps, IsModelFile, |ps|).0)
    ensures PreviewChoice(ps).Err? <==>
      !HasPositive(ps, IsImageFile) && !HasPositive(ps, IsVideoFile) && KeywordModel(ps, 0).None? && !HasPositive(ps, IsModelFile)
    ensures PreviewChoice(ps).Err? ==> PreviewChoice(ps) == Err(NoPreview)
  {
    ClassifiedNonEmpty();
    LargestFound(ps, IsImageFile);
    LargestFound(ps, IsVideoFile);
    LargestFound(ps, IsModelFile);
    if |ps| == 0 {
      assert !HasPositive(ps, IsImageFile) && !HasPositive(ps, IsVideoFile) && !HasPositive(ps, IsModelFile);
    }
  }

  /** A chosen preview is one of the listed entries. */
  lemma PreviewChosenFromList(ps: seq<PreviewInfo>)
    ensures PreviewChoice(ps).Ok? ==> exists i :: 0 <= i < |ps| && ps[i].path == PreviewChoice(ps).value
  {
    LargestIsFirstMaximal(ps, IsImageFile, |ps|);
    LargestIsFirstMaximal(ps, IsVideoFile, |ps|);
    LargestIsFirstMaximal(ps, IsModelFile, |ps|);
    KeywordModelFound(ps);
  }

  /** A keyword model found is a listed model file. */
  lemma KeywordModelFound(ps: seq<PreviewInfo>)
    ensures KeywordModel(ps, 0).Some? ==>
      exists i :: 0 <= i < |ps| && IsModelFile(ps[i].path) && ps[i].path == KeywordModel(ps, 0).value
  {
    KeywordModelFirst(ps, 0);
  }

  /** The selection loops of FindPreviewPathInArchive. */
  method SelectPreview(ps: seq<PreviewInfo>) returns (r: Result<string, string>)
    ensures r == PreviewChoice(ps)
  {
    if |ps| == 0 {
      return Err(NoPreview);
    }
    var bestImage, _ := LargestOfKind(ps, IsImageFile);
    if bestImage != "" {
      return Ok(bestImage);
    }
    var bestVideo, _ := LargestOfKind(ps, IsVideoFile);
    if bestVideo != "" {
      return Ok(bestVideo);
    }
    var keyword := FirstKeywordModel(ps);
    if keyword.Some? {
      return Ok(keyword.value);
    }
    var bestModel, _ := LargestOfKind(ps, IsModelFile);
    if bestModel != "" {
      return Ok(bestModel);
    }
    return Err(NoPreview);
  }

  method FindPreviewPathInArchive(archivePath: string, list: (string, Format) -> Result<seq<PreviewInfo>, string>)
    returns (r: Result<string, string>)
    ensures ListPreviews(archivePath, list).Err? ==> r == Err(ListPreviews(archivePath, list).error)
    ensures ListPreviews(archivePath, list).Ok? ==> r == PreviewChoice(ListPreviews(archivePath, list).value)
  {
    var previews := ListPreviewsInArchive(archivePath, list);
    if previews.Err? {
      return Err(previews.error);
    }
    r := SelectPreview(previews.value);
  }

  /** The two tiers of FindBestSTLInArchive over a preview list. */
  function ModelChoice(ps: seq<PreviewInfo>): Result<string, string>
  {
    if |ps| == 0 then Err("no files found")
    else if KeywordModel(ps, 0).Some? then Ok(KeywordModel(ps, 0).value)
    else if Largest(ps, IsModelFile, |ps|).0 != "" then Ok(Largest(ps, IsModelFile, |ps|).0)
    else Err("no 3D model found")
  }

  /** The keyword model first, else the largest positive-size model, else an
      error; a chosen entry is always a model. */
  lemma ModelTiers(ps: seq<PreviewInfo>)
    ensures ModelChoice(ps).Ok? ==> exists i :: 0 <= i < |ps| && IsModelFile(ps[i].path) && ps[i].path == ModelChoice(ps).value
    ensures ModelChoice(ps).Err? <==> KeywordModel(ps, 0).None? && !HasPositive(ps, IsModelFile)
    ensures |ps| > 0 && ModelChoice(ps).Err? ==> ModelChoice(ps) == Err("no 3D model found")
  {
    ClassifiedNonEmpty();
    LargestFound(ps, IsModelFile);
    LargestIsFirstMaximal(ps, IsModelFile, |ps|);
    KeywordModelFound(ps);
  }

  method FindBestSTLInArchive(archivePath: string, list: (string, Format) -> Result<seq<PreviewInfo>, string>)
    returns (r: Result<string, string>)
    ensures ListPreviews(archivePath, list).Err? ==> r == Err(ListPreviews(archivePath, list).error)
    ensures ListPreviews(archivePath, list).Ok? ==> r == ModelChoice(ListPreviews(archivePath, list).value)
  {
    var previews := ListPreviewsInArchive(archivePath, list);
    if previews.Err? {
      return Err(previews.error);
    }
    var ps := previews.value;
    if |ps| == 0 {
      return Err("no files found");
    }
    var keyword := FirstKeywordModel(ps);
    if keyword.Some? {
      return Ok(keyword.value);
    }
    var bestModel, _ := LargestOfKind(ps, IsModelFile);
    if bestModel != "" {
      return Ok(bestModel);
    }
    return Err("no 3D model found");
  }

  // ---------------------------------------------------------------------
  // CompareArchiveContents
  // ---------------------------------------------------------------------

  predicate NoDuplicates(s: seq<string>)
  {
    forall i, j :: 0 <= i < j < |s| ==> s[i] != s[j]
  }

  function Elements(s: seq<string>): set<string>
  {
    set x | x in s
  }

  /** A list with no elements is empty. */
  lemma NoElements(s: seq<string>)
    ensures Elements(s) == {} <==> s == []
  {
    if s != [] {
      assert s[0] in Elements(s);
    }
  }

  lemma Append(s: seq<string>, x: string)
    requires NoDuplicates(s) && x !in Elements(s)
    ensures NoDuplicates(s + [x]) && Elements(s + [x]) == Elements(s) + {x}
  {
    forall i | 0 <= i < |s| ensures (s + [x])[i] != x {
      assert s[i] in Elements(s);
    }
  }

  datatype Comparison = Comparison(common: seq<string>, unique1: seq<string>, unique2: seq<string>)

  /** One pass over the keys of a map, in an unspecified order, sorting each
      key into `inOther` or `notInOther`. */
  method SplitKeys(keys: set<string>, other: set<string>) returns (inOther: seq<string>, notInOther: seq<string>)
    ensures Elements(inOther) == keys * other && NoDuplicates(inOther)
    ensures Elements(notInOther) == keys - other && NoDuplicates(notInOther)
  {
    inOther, notInOther := [], [];
    var rest := keys;
    while rest != {}
      invariant rest <= keys
      invariant Elements(inOther) == (keys - rest) * other && NoDuplicates(inOther)
      invariant Elements(notInOther) == (keys - rest) - other && NoDuplicates(notInOther)
      decreases |rest|
    {
      var name :| name in rest;
      assert name !in Elements(inOther) && name !in Elements(notInOther);
      if name in other {
        Append(inOther, name);
        inOther := inOther + [name];
      } else {
        Append(notInOther, name);
        notInOther := notInOther + [name];
      }
      rest := rest - {name};
    }
  }

  /** CompareArchiveContents: common is the names in both archives, unique1
      the names only in the first and unique2 the names only in the second;
      no name is listed twice, and an archive compared with itself has no
      unique names. */
  method CompareArchiveContents(archive1: string, archive2: string,
                                extract: (string, Format) -> Result<map<string, seq<byte>>, string>)
    returns (r: Result<Comparison, string>)
    ensures ExtractArchive(archive1, extract).Err? ==>
      r == Err("failed to extract archive 1: " + ExtractArchive(archive1, extract).error)
    ensures ExtractArchive(archive1, extract).Ok? && ExtractArchive(archive2, extract).Err? ==>
      r == Err("failed to extract archive 2: " + ExtractArchive(archive2, extract).error)
    ensures r.Ok? ==> ExtractArchive(archive1, extract).Ok? && ExtractArchive(archive2, extract).Ok?
    ensures r.Ok? ==>
      var keys1, keys2 := ExtractArchive(archive1, extract).value.Keys, ExtractArchive(archive2, extract).value.Keys;
      Elements(r.value.common) == keys1 * keys2
      && Elements(r.value.unique1) == keys1 - keys2
      && Elements(r.value.unique2) == keys2 - keys1
      && NoDuplicates(r.value.common) && NoDuplicates(r.value.unique1) && NoDuplicates(r.value.unique2)
    ensures r.Ok? && archive1 == archive2 ==> r.value.unique1 == [] && r.value.unique2 == []
  {
    var contents1 := ExtractArchive(archive1, extract);
    if contents1.Err? {
      return Err("failed to extract archive 1: " + contents1.error);
    }
    var contents2 := ExtractArchive(archive2, extract);
    if contents2.Err? {
      return Err("failed to extract archive 2: " + contents2.error);
    }
    var keys1, keys2 := contents1.value.Keys, contents2.value.Keys;
    var common, unique1 := SplitKeys(keys1, keys2);
    var _, unique2 := SplitKeys(keys2, keys1);
    NoElements(unique1);
    NoElements(unique2);
    return Ok(Comparison(common, unique1, unique2));
  }
}
