/** internal/scanner/scanner.go: the scanned archive record, multi-volume
    part detection, archive type by extension, grouping by size and the unit
    choice of byte-count formatting. */
module Scanner {

  import opened Wrappers
  import opened Text

  type int64 = x: int | -0x8000_0000_0000_0000 <= x < 0x8000_0000_0000_0000

  /** A modification time: the instant it denotes (time.Time.Before compares
      these) and its two renderings, Format(time.RFC3339) and String(). */
  datatype Time = Time(instant: int, rfc3339: string, text: string)

  datatype ArchiveFile = ArchiveFile(
    name: string,
    path: string,
    size: int64,
    archiveType: string,
    modTime: Time,
    fileCount: int)

  /** The three results of IsMultiVolumePart. */
  datatype VolumePart = VolumePart(isPart: bool, base: string, part: string)

  const Separators: seq<string> := [".part", "_part", "-part", " part"]

  const ArchiveSubExts: seq<string> := [".zip", ".rar", ".7z", ".tar", ".gz"]

  predicate AllDigits(s: string)
  {
    forall k :: 0 <= k < |s| ==> IsDigit(s[k])
  }

  // ---------------------------------------------------------------------
  // Multi-volume detection: reference definition
  // ---------------------------------------------------------------------

  /** The separator family: the first separator of seps that occurs in name
      and whose last occurrence is followed by at least one digit. */
  function SeparatorPart(name: string, seps: seq<string>): Option<(string, string)>
  {
    if seps == [] then None
    else
      var sep := seps[0];
      var idx := LastIndex(name, sep);
      if idx >= 0 && |DigitPrefix(name[idx + |sep|..])| > 0
      then Some((name[..idx], DigitPrefix(name[idx + |sep|..])))
      else SeparatorPart(name, seps[1..])
  }

  /** The numeric-extension family: the last extension is a dot followed by
      digits only; a known archive extension before it leaves the base too. */
  function NumericExtPart(name: string): VolumePart
  {
    var ext := Ext(name);
    if |ext| >= 2 && ext[0] == '.' && AllDigits(ext[1..]) then
      var base := name[..|name| - |ext|];
      var sub := Ext(base);
      VolumePart(true, if sub in ArchiveSubExts then base[..|base| - |sub|] else base, ext[1..])
    else VolumePart(false, "", "")
  }

  /** IsMultiVolumePart as a value. A detected part always carries a
      non-empty token of ASCII digits, and a name that is not a part gets an
      empty base and token. */
  function MultiVolumePart(fileName: string): (r: VolumePart)
    ensures r.isPart ==> r.part != "" && AllDigits(r.part)
    ensures !r.isPart ==> r.base == "" && r.part == ""
  {
    var name := Lower(fileName);
    match SeparatorPart(name, Separators)
    case Some((b, p)) =>
      SeparatorPartDigits(name, Separators);
      VolumePart(true, b, p)
    case None => NumericExtPart(name)
  }

  // ---------------------------------------------------------------------
  // Multi-volume detection: the method
  // ---------------------------------------------------------------------

  /** The digits at the front of rest, gathered one character at a time. */
  method LeadingDigits(rest: string) returns (partNum: string)
    ensures partNum == DigitPrefix(rest)
  {
    partNum := "";
    var k := 0;
    while k < |rest| && IsDigit(rest[k])
      invariant 0 <= k <= |rest|
      invariant DigitPrefix(rest) == partNum + DigitPrefix(rest[k..])
    {
      DigitPrefixStep(rest, k);
      partNum := partNum + [rest[k]];
      k := k + 1;
    }
    assert DigitPrefix(rest[k..]) == [] by {
      if k < |rest| {
        assert rest[k..][0] == rest[k];
      }
    }
  }

  lemma DigitPrefixStep(s: string, k: nat)
    requires k < |s| && IsDigit(s[k])
    ensures DigitPrefix(s[k..]) == [s[k]] + DigitPrefix(s[k + 1..])
  {
    assert s[k..][1..] == s[k + 1..];
  }

  /** Whether every character of s is an ASCII digit, scanning with an early exit. */
  method CheckDigits(s: string) returns (isDigits: bool)
    ensures isDigits == (s != [] && AllDigits(s))
  {
    isDigits := true;
    if |s| == 0 {
      isDigits := false;
    }
    var k := 0;
    while k < |s|
      invariant 0 <= k <= |s|
      invariant isDigits == (s != [] && AllDigits(s[..k]))
    {
      if !IsDigit(s[k]) {
        isDigits := false;
        break;
      }
      k := k + 1;
    }
    assert k == |s| ==> s[..k] == s;
  }

  /** The numeric-extension half of IsMultiVolumePart, on the lowercased name. */
  method NumericExtension(name: string) returns (isPart: bool, base: string, partNum: string)
    ensures VolumePart(isPart, base, partNum) == NumericExtPart(name)
  {
    var ext := Ext(name);
    if |ext| >= 2 && ext[0] == '.' {
      partNum := ext[1..];
      var isDigits := CheckDigits(partNum);
      if isDigits {
        base := name[..|name| - |ext|];
        var subExt := Ext(base);
        if subExt != "" {
          if subExt in ArchiveSubExts {
            base := base[..|base| - |subExt|];
          }
        }
        return true, base, partNum;
      }
    }
    return false, "", "";
  }

  /** ArchiveFile.IsMultiVolumePart. */
  method IsMultiVolumePart(f: ArchiveFile) returns (isPart: bool, base: string, partNum: string)
    ensures VolumePart(isPart, base, partNum) == MultiVolumePart(f.name)
  {
    var name := Lower(f.name);
    var i := 0;
    while i < |Separators|
      invariant 0 <= i <= |Separators|
      invariant SeparatorPart(name, Separators) == SeparatorPart(name, Separators[i..])
    {
      var sep := Separators[i];
      assert Separators[i..][0] == sep && Separators[i..][1..] == Separators[i + 1..];
      if Contains(name, sep) {
        var idx := LastIndex(name, sep);
        base := name[..idx];
        partNum := LeadingDigits(name[idx + |sep|..]);
        SeparatorPartMatch(name, Separators[i..], base, partNum);
        if |partNum| > 0 {
          assert VolumePart(true, base, partNum) == MultiVolumePart(f.name) by {
            assert SeparatorPart(name, Separators) == Some((base, partNum));
          }
          return true, base, partNum;
        }
      } else {
        SeparatorPartSkip(name, Separators[i..]);
      }
      i := i + 1;
    }
    isPart, base, partNum := NumericExtension(name);
  }

  /** A separator that occurs: its last occurrence followed by digits is
      the answer, and without digits the search goes on. */
  lemma SeparatorPartMatch(name: string, seps: seq<string>, base: string, partNum: string)
    requires seps != [] && Contains(name, seps[0])
    requires base == name[..LastIndex(name, seps[0])]
    requires partNum == DigitPrefix(name[LastIndex(name, seps[0]) + |seps[0]|..])
    ensures |partNum| > 0 ==> SeparatorPart(name, seps) == Some((base, partNum))
    ensures |partNum| == 0 ==> SeparatorPart(name, seps) == SeparatorPart(name, seps[1..])
  {
  }

  /** A separator that does not occur is passed over. */
  lemma SeparatorPartSkip(name: string, seps: seq<string>)
    requires seps != [] && !Contains(name, seps[0])
    ensures SeparatorPart(name, seps) == SeparatorPart(name, seps[1..])
  {
  }

  // ---------------------------------------------------------------------
  // Multi-volume detection: properties
  // ---------------------------------------------------------------------

  lemma {:induction false} SeparatorPartDigits(name: string, seps: seq<string>)
    requires SeparatorPart(name, seps).Some?
    ensures var (b, p) := SeparatorPart(name, seps).value;
      p != "" && AllDigits(p) && |b| < |name| && HasPrefix(name, b)
  {
    var idx := LastIndex(name, seps[0]);
    if !(idx >= 0 && |DigitPrefix(name[idx + |seps[0]|..])| > 0) {
      SeparatorPartDigits(name, seps[1..]);
    }
  }

  lemma {:induction false} SeparatorPartBase(name: string, seps: seq<string>)
    requires SeparatorPart(name, seps).Some?
    ensures exists j :: (0 <= j < |seps| && Contains(name, seps[j])
      && SeparatorPart(name, seps).value.0 == name[..LastIndex(name, seps[j])]
      && forall q :: 0 <= q < j ==> SeparatorPart(name, seps[q..]) == SeparatorPart(name, seps))
  {
    var idx := LastIndex(name, seps[0]);
    if idx >= 0 && |DigitPrefix(name[idx + |seps[0]|..])| > 0 {
      assert seps[0..] == seps;
    } else {
      SeparatorPartBase(name, seps[1..]);
      var j :| 0 <= j < |seps[1..]| && Contains(name, seps[1..][j])
        && SeparatorPart(name, seps[1..]).value.0 == name[..LastIndex(name, seps[1..][j])]
        && forall q :: 0 <= q < j ==> SeparatorPart(name, seps[1..][q..]) == SeparatorPart(name, seps[1..]);
      forall q | 0 <= q < j + 1
        ensures SeparatorPart(name, seps[q..]) == SeparatorPart(name, seps)
      {
        if q > 0 { assert seps[q..] == seps[1..][q - 1..]; }
      }
      assert seps[j + 1] == seps[1..][j];
    }
  }

  /** In the separator family the base is the lowercased name cut at the last
      occurrence of a separator, hence a strict prefix of that name. */
  lemma SeparatorBaseIsPrefix(fileName: string)
    requires SeparatorPart(Lower(fileName), Separators).Some?
    ensures var name := Lower(fileName); var r := MultiVolumePart(fileName);
      r.isPart && HasPrefix(name, r.base) && |r.base| < |name|
      && exists j :: 0 <= j < |Separators| && Contains(name, Separators[j])
           && r.base == name[..LastIndex(name, Separators[j])]
  {
    SeparatorPartDigits(Lower(fileName), Separators);
    SeparatorPartBase(Lower(fileName), Separators);
  }

  /** No separator of seps occurs in name: the separator family finds nothing. */
  lemma {:induction false} SeparatorPartNone(name: string, seps: seq<string>)
    requires forall j :: 0 <= j < |seps| ==> LastIndex(name, seps[j]) == -1
    ensures SeparatorPart(name, seps) == None
  {
    if seps != [] {
      assert LastIndex(name, seps[0]) == -1;
      forall j | 0 <= j < |seps[1..]| ensures LastIndex(name, seps[1..][j]) == -1 {
        assert seps[1..][j] == seps[j + 1];
      }
      SeparatorPartNone(name, seps[1..]);
    }
  }

  /** A run of digits followed by something that does not start with a
      digit: the run is the digit prefix. */
  lemma {:induction false} DigitPrefixOfDigits(p: string, t: string)
    requires AllDigits(p)
    requires t == [] || !IsDigit(t[0])
    ensures DigitPrefix(p + t) == p
  {
    if p == [] {
      assert p + t == t;
    } else {
      assert (p + t)[1..] == p[1..] + t;
      DigitPrefixOfDigits(p[1..], t);
    }
  }

  lemma LowerOfDigits(p: string)
    requires AllDigits(p)
    ensures Lower(p) == p
  {
    assert forall i :: 0 <= i < |p| ==> Lower(p)[i] == p[i];
  }

  /** The last ".part" in lb + ".part" + p + le is the one after lb when p
      is digits and le does not contain ".part". */
  lemma SeparatorLastIndex(lb: string, p: string, le: string)
    requires AllDigits(p)
    requires !Contains(le, ".part")
    ensures LastIndex(lb + ".part" + p + le, ".part") == |lb|
  {
    var n := lb + ".part" + p + le;
    var i := |lb|;
    assert n[i..i + 5] == ".part";
    assert OccursAt(n, ".part", i);
    forall k | i < k <= |n| ensures !OccursAt(n, ".part", k) {
      if k < i + 5 + |p| {
        assert n[k] != '.';
      } else if k + 5 <= |n| {
        var j := k - (i + 5 + |p|);
        assert n[k..k + 5] == le[j..j + 5];
        assert !OccursAt(le, ".part", j);
      }
    }
  }

  lemma LowerOfPartName(b: string, p: string, ext: string)
    requires AllDigits(p)
    ensures Lower(b + ".part" + p + ext) == Lower(b) + ".part" + p + Lower(ext)
  {
    LowerAppend(b + ".part" + p, ext);
    LowerAppend(b + ".part", p);
    LowerAppend(b, ".part");
    LowerOfDigits(p);
    assert Lower(".part") == ".part";
  }

  /** A separator-named volume: any base, ".part", digits, and a tail that
      neither starts with a digit nor contains ".part" (such as ".rar" or
      nothing). The set is the lowercased base and the part is the digits. */
  lemma SeparatorVolume(b: string, p: string, ext: string)
    requires p != [] && AllDigits(p)
    requires ext == [] || !IsDigit(ext[0])
    requires !Contains(Lower(ext), ".part")
    ensures MultiVolumePart(b + ".part" + p + ext) == VolumePart(true, Lower(b), p)
  {
    var lb, le := Lower(b), Lower(ext);
    var n := lb + ".part" + p + le;
    LowerOfPartName(b, p, ext);
    assert SeparatorPart(n, Separators) == Some((lb, p)) by {
      SeparatorLastIndex(lb, p, le);
      assert n[|lb| + 5..] == p + le;
      assert le == [] || !IsDigit(le[0]);
      DigitPrefixOfDigits(p, le);
      assert n[..|lb|] == lb;
      FirstSeparatorMatch(n, |lb|, lb, p);
    }
  }

  /** When ".part" last occurs at idx and digits follow it, the separator
      family stops at the first separator. */
  lemma FirstSeparatorMatch(n: string, idx: nat, lb: string, p: string)
    requires LastIndex(n, ".part") == idx && idx + 5 <= |n|
    requires DigitPrefix(n[idx + 5..]) == p && p != []
    requires n[..idx] == lb
    ensures SeparatorPart(n, Separators) == Some((lb, p))
  {
    assert Separators[0] == ".part";
    SeparatorPartMatch(n, Separators, lb, p);
  }

  /** Two volumes of one separator-named set share the base and differ only
      in the part token. */
  lemma SeparatorVolumesShareBase(b: string, p1: string, p2: string, ext1: string, ext2: string)
    requires p1 != [] && AllDigits(p1) && p2 != [] && AllDigits(p2)
    requires ext1 == [] || !IsDigit(ext1[0])
    requires ext2 == [] || !IsDigit(ext2[0])
    requires !Contains(Lower(ext1), ".part") && !Contains(Lower(ext2), ".part")
    ensures MultiVolumePart(b + ".part" + p1 + ext1).base == MultiVolumePart(b + ".part" + p2 + ext2).base
    ensures MultiVolumePart(b + ".part" + p1 + ext1).part == MultiVolumePart(b + ".part" + p2 + ext2).part
      <==> p1 == p2
  {
    SeparatorVolume(b, p1, ext1);
    SeparatorVolume(b, p2, ext2);
  }

  /** "part" does not occur in lb + ".zip." + p when it does not occur in lb
      and p is digits. */
  lemma NoPartInZipName(lb: string, p: string)
    requires AllDigits(p)
    requires !Contains(lb, "part")
    ensures forall k :: !OccursAt(lb + ".zip." + p, "part", k)
  {
    var n := lb + ".zip." + p;
    forall k | 0 <= k <= |n| - 4 ensures !OccursAt(n, "part", k) {
      if k + 4 <= |lb| {
        assert n[k..k + 4] == lb[k..k + 4];
        assert !OccursAt(lb, "part", k);
      } else if k <= |lb| {
        assert n[k..k + 4][|lb| - k] == '.';
      } else if k == |lb| + 3 {
        assert n[k..k + 4][1] == '.';
      } else {
        assert n[k] != 'p';
      }
    }
  }

  /** None of the separators occurs in such a name. */
  lemma NoSeparatorInZipName(lb: string, p: string)
    requires AllDigits(p)
    requires !Contains(lb, "part")
    ensures SeparatorPart(lb + ".zip." + p, Separators) == None
  {
    var n := lb + ".zip." + p;
    NoPartInZipName(lb, p);
    forall j | 0 <= j < |Separators| ensures LastIndex(n, Separators[j]) == -1 {
      var sep := Separators[j];
      forall k | 0 <= k <= |n| - |sep| ensures !OccursAt(n, sep, k) {
        assert !OccursAt(n, "part", k + 1);
        assert n[k + 1..k + 5] == n[k..k + 5][1..];
      }
    }
    SeparatorPartNone(n, Separators);
  }

  /** The extension of lb + ".zip." + p is "." + p, and that of what is left
      is ".zip". */
  lemma ZipNameExts(lb: string, p: string)
    requires p != [] && AllDigits(p)
    ensures var n := lb + ".zip." + p;
      Ext(n) == "." + p && n[..|n| - |p| - 1] == lb + ".zip" && Ext(lb + ".zip") == ".zip"
  {
    var n := lb + ".zip." + p;
    ExtOfSuffix(n, "." + p);
    ExtOfSuffix(lb + ".zip", ".zip");
  }

  lemma LowerOfZipName(b: string, p: string)
    requires AllDigits(p)
    ensures Lower(b + ".zip." + p) == Lower(b) + ".zip." + p
  {
    LowerAppend(b + ".zip.", p);
    LowerAppend(b, ".zip.");
    LowerOfDigits(p);
    assert Lower(".zip.") == ".zip.";
  }

  lemma NumericExtOfZipName(lb: string, p: string)
    requires p != [] && AllDigits(p)
    ensures NumericExtPart(lb + ".zip." + p) == VolumePart(true, lb, p)
  {
    ZipNameExts(lb, p);
    assert (lb + ".zip")[..|lb|] == lb;
  }

  /** A numeric volume after ".zip": any base in which "part" does not
      occur, then ".zip." and digits. Both extensions leave the base. */
  lemma ZipVolume(b: string, p: string)
    requires p != [] && AllDigits(p)
    requires !Contains(Lower(b), "part")
    ensures MultiVolumePart(b + ".zip." + p) == VolumePart(true, Lower(b), p)
  {
    LowerOfZipName(b, p);
    NoSeparatorInZipName(Lower(b), p);
    NumericExtOfZipName(Lower(b), p);
  }

  /** A sub-extension that is not a known archive type stays in the base. */
  lemma NumericKeepsOtherSubExt(fileName: string)
    requires SeparatorPart(Lower(fileName), Separators).None?
    requires var ext := Ext(Lower(fileName)); |ext| >= 2 && AllDigits(ext[1..])
    requires var name := Lower(fileName); var base := name[..|name| - |Ext(name)|];
      Ext(base) !in ArchiveSubExts
    ensures var name := Lower(fileName);
      MultiVolumePart(fileName) == VolumePart(true, name[..|name| - |Ext(name)|], Ext(name)[1..])
  {
  }

  /** Split-zip volumes ("archive.z01") are not detected: ".z01" is not all
      digits and no separator occurs. */
  lemma SplitZipNotDetected(n: string, d1: char, d2: char)
    requires n == "archive.z" + [d1, d2] && IsDigit(d1) && IsDigit(d2)
    ensures MultiVolumePart(n) == VolumePart(false, "", "")
  {
    assert Lower(n) == n by {
      forall i | 0 <= i < |n| ensures LowerChar(n[i]) == n[i] { }
    }
    SplitZipNoSeparator(n, d1, d2);
    SplitZipExt(n, d1, d2);
    assert !IsDigit(Ext(n)[1]);
  }

  lemma SplitZipNoSeparator(n: string, d1: char, d2: char)
    requires n == "archive.z" + [d1, d2] && IsDigit(d1) && IsDigit(d2)
    ensures SeparatorPart(n, Separators) == None
  {
    forall j | 0 <= j < |Separators| ensures LastIndex(n, Separators[j]) == -1 {
      var sep := Separators[j];
      assert LastIndexBelow(n, sep, 6) == -1;
      assert LastIndexBelow(n, sep, 12) == -1;
    }
    SeparatorPartNone(n, Separators);
  }

  lemma SplitZipExt(n: string, d1: char, d2: char)
    requires n == "archive.z" + [d1, d2] && IsDigit(d1) && IsDigit(d2)
    ensures Ext(n) == ".z" + [d1, d2]
  {
    assert ExtStart(n, 8) == Some(7);
    assert ExtStart(n, 9) == Some(7);
    assert ExtStart(n, 10) == Some(7);
    assert ExtStart(n, 11) == Some(7);
  }

  // ---------------------------------------------------------------------
  // Archive type
  // ---------------------------------------------------------------------

  /** getArchiveType: the archive or model type named by the extension. */
  function GetArchiveType(filename: string): (r: string)
    ensures r in {"", "zip", "rar", "7z", "stl", "obj"}
    ensures r == "" <==> Lower(Ext(filename)) !in {".zip", ".rar", ".7z", ".stl", ".obj"}
    ensures r != "" ==> Lower(Ext(filename)) == "." + r
  {
    var ext := Lower(Ext(filename));
    if ext == ".zip" then "zip"
    else if ext == ".rar" then "rar"
    else if ext == ".7z" then "7z"
    else if ext == ".stl" then "stl"
    else if ext == ".obj" then "obj"
    else ""
  }

  /** The type does not depend on the case of the name. */
  lemma ArchiveTypeCaseInsensitive(filename: string)
    ensures GetArchiveType(Lower(filename)) == GetArchiveType(filename)
  {
    ExtLower(filename);
    LowerIdempotent(Ext(filename));
  }

  // ---------------------------------------------------------------------
  // GroupBySize
  // ---------------------------------------------------------------------

  /** The files of the given size, in input order. */
  function OfSize(files: seq<ArchiveFile>, size: int): (r: seq<ArchiveFile>)
    ensures |r| <= |files|
  {
    if files == [] then []
    else
      var last := files[|files| - 1];
      OfSize(files[..|files| - 1], size) + (if last.size == size then [last] else [])
  }

  /** The bucket of a size holds exactly the files of that size. */
  lemma {:induction false} OfSizeMembers(files: seq<ArchiveFile>, size: int)
    ensures forall g :: g in OfSize(files, size) <==> g in files && g.size == size
  {
    if files != [] {
      var init := files[..|files| - 1];
      OfSizeMembers(init, size);
      assert files == init + [files[|files| - 1]];
    }
  }

  function Sizes(files: seq<ArchiveFile>): set<int>
  {
    set f | f in files :: f.size as int
  }

  /** A size that does not occur has an empty bucket. */
  lemma {:induction false} OfSizeAbsent(files: seq<ArchiveFile>, size: int)
    requires size !in Sizes(files)
    ensures OfSize(files, size) == []
  {
    if files != [] {
      var init := files[..|files| - 1];
      assert files[|files| - 1] in files;
      assert Sizes(init) <= Sizes(files) by {
        forall f | f in init ensures f in files { }
      }
      OfSizeAbsent(init, size);
    }
  }

  lemma OfSizeSnoc(files: seq<ArchiveFile>, k: nat, s: int)
    requires k < |files|
    ensures OfSize(files[..k + 1], s)
      == OfSize(files[..k], s) + (if files[k].size == s then [files[k]] else [])
  {
    assert files[..k + 1][..k] == files[..k];
  }

  lemma SizesSnoc(files: seq<ArchiveFile>, k: nat)
    requires k < |files|
    ensures Sizes(files[..k + 1]) == Sizes(files[..k]) + {files[k].size as int}
  {
    assert files[..k + 1] == files[..k] + [files[k]];
  }

  /** What the grouping loop keeps: the buckets of the first k files. */
  predicate Grouped(files: seq<ArchiveFile>, k: nat, groups: map<int, seq<ArchiveFile>>)
    requires k <= |files|
  {
    groups.Keys == Sizes(files[..k])
    && forall s :: s in groups ==> groups[s] == OfSize(files[..k], s) && groups[s] != []
  }

  /** Appending file k to the bucket of its size extends the grouping by one file. */
  lemma GroupedStep(files: seq<ArchiveFile>, k: nat, groups: map<int, seq<ArchiveFile>>)
    requires k < |files| && Grouped(files, k, groups)
    ensures var size := files[k].size as int;
      var bucket := if size in groups then groups[size] else [];
      Grouped(files, k + 1, groups[size := bucket + [files[k]]])
  {
    var size := files[k].size as int;
    var bucket := if size in groups then groups[size] else [];
    if size !in groups {
      OfSizeAbsent(files[..k], size);
    }
    var g := groups[size := bucket + [files[k]]];
    forall s | s in g
      ensures g[s] == OfSize(files[..k + 1], s) && g[s] != []
    {
      OfSizeSnoc(files, k, s);
    }
    SizesSnoc(files, k);
  }

  /** GroupBySize: one bucket per size that occurs, holding exactly the files
      of that size in input order. */
  method GroupBySize(files: seq<ArchiveFile>) returns (groups: map<int, seq<ArchiveFile>>)
    ensures groups.Keys == Sizes(files)
    ensures forall s :: s in groups ==> groups[s] == OfSize(files, s) && groups[s] != []
  {
    groups := map[];
    var k := 0;
    while k < |files|
      invariant 0 <= k <= |files|
      invariant Grouped(files, k, groups)
    {
      GroupedStep(files, k, groups);
      var size := files[k].size as int;
      var bucket := if size in groups then groups[size] else [];
      groups := groups[size := bucket + [files[k]]];
      k := k + 1;
    }
    assert files[..k] == files;
  }

  /** Every file lies in the bucket of its own size and in no other. */
  lemma BucketOfOwnSize(files: seq<ArchiveFile>, f: ArchiveFile, s: int)
    ensures f in OfSize(files, s) <==> f in files && f.size == s
  {
    OfSizeMembers(files, s);
  }

  // ---------------------------------------------------------------------
  // GroupBySize: the buckets together hold every file once
  // ---------------------------------------------------------------------

  predicate DistinctSizes(order: seq<int>)
  {
    forall i, j :: 0 <= i < j < |order| ==> order[i] != order[j]
  }

  /** The buckets of the sizes in order, one after another. */
  function Buckets(files: seq<ArchiveFile>, order: seq<int>): seq<ArchiveFile>
  {
    if order == [] then [] else OfSize(files, order[0]) + Buckets(files, order[1..])
  }

  /** How many times s is listed in order. */
  function Hits(order: seq<int>, s: int): nat
  {
    if order == [] then 0 else (if order[0] == s then 1 else 0) + Hits(order[1..], s)
  }

  /** A size listed once in a list of distinct sizes is hit once, and an
      unlisted one not at all. */
  lemma {:induction false} HitsDistinct(order: seq<int>, s: int)
    requires DistinctSizes(order)
    ensures Hits(order, s) == if s in order then 1 else 0
  {
    if order != [] {
      assert order == [order[0]] + order[1..];
      assert DistinctSizes(order[1..]) by {
        forall i, j | 0 <= i < j < |order[1..]| ensures order[1..][i] != order[1..][j] {
          assert order[1..][i] == order[i + 1];
        }
      }
      HitsDistinct(order[1..], s);
      if order[0] == s {
        assert s !in order[1..] by {
          forall j | 0 <= j < |order[1..]| ensures order[1..][j] != s {
            assert order[1..][j] == order[j + 1];
          }
        }
      }
    }
  }

  lemma OfSizeLast(init: seq<ArchiveFile>, f: ArchiveFile, s: int)
    ensures OfSize(init + [f], s) == OfSize(init, s) + (if f.size == s then [f] else [])
  {
    assert (init + [f])[..|init|] == init;
  }

  /** One more file lengthens the buckets by the number of times its size
      is listed. */
  lemma {:induction false} BucketsSnoc(init: seq<ArchiveFile>, f: ArchiveFile, order: seq<int>)
    ensures |Buckets(init + [f], order)| == |Buckets(init, order)| + Hits(order, f.size as int)
  {
    if order != [] {
      OfSizeLast(init, f, order[0]);
      BucketsSnoc(init, f, order[1..]);
    }
  }

  /** Over distinct sizes covering every file, the buckets hold as many
      entries as there are files. */
  lemma {:induction false} BucketsLength(files: seq<ArchiveFile>, order: seq<int>)
    requires DistinctSizes(order)
    requires forall f :: f in files ==> f.size as int in order
    ensures |Buckets(files, order)| == |files|
  {
    if files == [] {
      BucketsOfNothing(order);
    } else {
      var init, f := files[..|files| - 1], files[|files| - 1];
      assert files == init + [f];
      BucketsLength(init, order);
      BucketsSnoc(init, f, order);
      HitsDistinct(order, f.size as int);
    }
  }

  /** The buckets of the listed sizes hold exactly the files of those sizes. */
  lemma {:induction false} BucketsMembers(files: seq<ArchiveFile>, order: seq<int>)
    ensures forall g :: g in Buckets(files, order) <==> g in files && g.size as int in order
  {
    if order != [] {
      OfSizeMembers(files, order[0]);
      BucketsMembers(files, order[1..]);
      assert forall s :: s in order <==> s == order[0] || s in order[1..] by {
        assert order == [order[0]] + order[1..];
      }
    }
  }

  lemma {:induction false} BucketsOfNothing(order: seq<int>)
    ensures Buckets([], order) == []
  {
    if order != [] {
      BucketsOfNothing(order[1..]);
    }
  }

  /** The buckets of a map, in the given order of its keys. */
  function Flatten(groups: map<int, seq<ArchiveFile>>, order: seq<int>): seq<ArchiveFile>
    requires forall i :: 0 <= i < |order| ==> order[i] in groups
  {
    if order == [] then [] else groups[order[0]] + Flatten(groups, order[1..])
  }

  lemma {:induction false} FlattenBuckets(files: seq<ArchiveFile>, groups: map<int, seq<ArchiveFile>>, order: seq<int>)
    requires forall i :: 0 <= i < |order| ==> order[i] in groups
    requires forall s :: s in groups ==> groups[s] == OfSize(files, s)
    ensures Flatten(groups, order) == Buckets(files, order)
  {
    if order != [] {
      FlattenBuckets(files, groups, order[1..]);
    }
  }

  /** What GroupBySize returns, read in any order of its keys (as a Go map
      is ranged over): the bucket lengths add up to the number of files,
      and every file is in some bucket and nothing else is. */
  lemma GroupsPartitionFiles(files: seq<ArchiveFile>, groups: map<int, seq<ArchiveFile>>, order: seq<int>)
    requires groups.Keys == Sizes(files)
    requires forall s :: s in groups ==> groups[s] == OfSize(files, s)
    requires DistinctSizes(order) && (set s | s in order) == groups.Keys
    ensures |Flatten(groups, order)| == |files|
    ensures forall g :: g in Flatten(groups, order) <==> g in files
  {
    FlattenBuckets(files, groups, order);
    assert forall f :: f in files ==> f.size as int in Sizes(files);
    BucketsLength(files, order);
    BucketsMembers(files, order);
  }

  // ---------------------------------------------------------------------
  // formatBytes
  // ---------------------------------------------------------------------

  function Pow1024(e: nat): (r: int)
    ensures r >= 1
  {
    if e == 0 then 1 else 1024 * Pow1024(e - 1)
  }

  lemma MulLe(a: int, b: int, c: int)
    requires a <= b && c >= 0
    ensures a * c <= b * c
  {
  }

  /** One turn of the loop: dividing n by 1024 and multiplying div by 1024
      keeps bytes between n*div and (n+1)*div. */
  lemma FormatStep(bytes: int, n: int, div: int)
    requires div >= 1 && n >= 1024
    requires n * div <= bytes < (n + 1) * div
    ensures n / 1024 >= 1
    ensures (n / 1024) * (div * 1024) <= bytes < (n / 1024 + 1) * (div * 1024)
  {
    var q := n / 1024;
    MulLe(q * 1024, n, div);
    MulLe(n + 1, (q + 1) * 1024, div);
    assert q * (div * 1024) == (q * 1024) * div;
    assert (q + 1) * (div * 1024) == ((q + 1) * 1024) * div;
  }

  /** 1024^6 times 1024 already exceeds every int64. */
  lemma Pow1024Six()
    ensures Pow1024(6) * 1024 > 0x7FFF_FFFF_FFFF_FFFF
  {
    assert Pow1024(2) == 0x10_0000;
    assert Pow1024(4) == 0x100_0000_0000;
    assert Pow1024(6) == 0x1000_0000_0000_0000;
  }

  /** The integer part of formatBytes: under 1024 bytes the count is printed
      as is; otherwise the loop picks the largest power div = 1024^(exp+1)
      not above the count, and "KMGTPE"[exp] names the unit. */
  method FormatUnit(bytes: int64) returns (scaled: bool, div: int, exp: int, unit: char)
    ensures scaled <==> bytes >= 1024
    ensures scaled ==> 0 <= exp <= 5 && div == Pow1024(exp + 1)
    ensures scaled ==> div <= bytes < div * 1024
    ensures scaled ==> unit == "KMGTPE"[exp]
  {
    if bytes < 1024 {
      return false, 1, 0, 'B';
    }
    div, exp := 1024, 0;
    var n := bytes / 1024;
    while n >= 1024
      invariant 0 <= exp <= 5
      invariant div == Pow1024(exp + 1)
      invariant n >= 1
      invariant n * div <= bytes < (n + 1) * div
    {
      FormatStep(bytes, n, div);
      if exp == 5 {
        Pow1024Six();
        MulLe(1024, n, div);
        assert false;
      }
      div := div * 1024;
      exp := exp + 1;
      n := n / 1024;
    }
    MulLe(1, n, div);
    MulLe(n + 1, 1024, div);
    scaled := true;
    unit := "KMGTPE"[exp];
  }
}
