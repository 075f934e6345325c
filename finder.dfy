/** cmd/finder/main.go: the decision rules of the command-line tool — its
    own multi-volume name test, the choice of a deletion candidate in
    handleCleanup, the skip of two volumes of one set when pairs of equal
    size are compared, and the validation of the parsed flags. Console
    input (the interactive choice and the y/N confirmation) enters as
    parameters; the file actions themselves are left out, so a decision
    to act is the result. */
module Finder {

  import opened Wrappers
  import opened Text
  import opened Scanner

  // ---------------------------------------------------------------------
  // isMultiVolumePart
  // ---------------------------------------------------------------------

  const PartMarker: string := ".part"

  const SplitZipMarker: string := ".z0"

  /** A dot followed by exactly three decimal digits, such as ".001". The
      source measures the extension in bytes; since digits are one byte
      each, a length of four characters is the same condition here. */
  predicate NumericExt(ext: string)
  {
    |ext| == 4 && ext[0] == '.' && forall i :: 1 <= i < 4 ==> IsDigit(ext[i])
  }

  /** The name test of main.go, on the lower-cased name. */
  predicate MultiVolumeName(filename: string)
  {
    var name := Lower(filename);
    Contains(name, PartMarker) || Contains(name, SplitZipMarker) || NumericExt(Ext(name))
  }

  method IsMultiVolumeName(filename: string) returns (r: bool)
    ensures r == MultiVolumeName(filename)
  {
    var name := Lower(filename);
    if Contains(name, PartMarker) || Contains(name, SplitZipMarker) {
      return true;
    }
    var ext := Ext(name);
    r := IsNumericExt(ext);
  }

  /** The byte loop over the extension. */
  method IsNumericExt(ext: string) returns (r: bool)
    ensures r == NumericExt(ext)
  {
    if |ext| == 4 && ext[0] == '.' {
      var isNumeric := true;
      var i := 1;
      while i < 4
        invariant 1 <= i <= 4
        invariant isNumeric <==> forall k :: 1 <= k < i ==> IsDigit(ext[k])
      {
        if ext[i] < '0' || ext[i] > '9' {
          isNumeric := false;
          break;
        }
        i := i + 1;
      }
      if isNumeric {
        return true;
      }
    }
    return false;
  }

  /** The test does not depend on letter case. */
  lemma MultiVolumeCaseInsensitive(filename: string)
    ensures MultiVolumeName(Lower(filename)) == MultiVolumeName(filename)
  {
    LowerIdempotent(filename);
  }

  /** Any name ending in a dot and three digits is a volume, whatever
      precedes it. */
  lemma ThreeDigitExtension(base: string, a: char, b: char, c: char)
    requires IsDigit(a) && IsDigit(b) && IsDigit(c)
    ensures MultiVolumeName(base + ['.', a, b, c])
  {
    var x := ['.', a, b, c];
    var name := Lower(base + x);
    DigitExtLower(base, a, b, c);
    SuffixHas(Lower(base), x);
    DigitSuffixExt(name, a, b, c);
    DigitExt(a, b, c);
    NumericVolumeName(base + x);
  }

  lemma DigitSuffixExt(name: string, a: char, b: char, c: char)
    requires IsDigit(a) && IsDigit(b) && IsDigit(c) && HasSuffix(name, ['.', a, b, c])
    ensures Ext(name) == ['.', a, b, c]
  {
    ExtOfSuffix(name, ['.', a, b, c]);
  }

  lemma NumericVolumeName(filename: string)
    requires NumericExt(Ext(Lower(filename)))
    ensures MultiVolumeName(filename)
  {
  }

  lemma DigitExt(a: char, b: char, c: char)
    requires IsDigit(a) && IsDigit(b) && IsDigit(c)
    ensures NumericExt(['.', a, b, c])
  {
  }

  lemma DigitExtLower(base: string, a: char, b: char, c: char)
    requires IsDigit(a) && IsDigit(b) && IsDigit(c)
    ensures Lower(base + ['.', a, b, c]) == Lower(base) + ['.', a, b, c]
  {
    var x := ['.', a, b, c];
    forall i | 0 <= i < 4
      ensures LowerChar(x[i]) == x[i]
    {
    }
    assert Lower(x) == x;
    LowerAppend(base, x);
  }

  lemma SuffixHas(p: string, x: string)
    ensures HasSuffix(p + x, x)
  {
    assert (p + x)[|p + x| - |x|..] == x;
  }

  /** Any name whose lower-cased form contains ".part" or ".z0" is a volume. */
  lemma MarkedVolume(filename: string, i: nat)
    requires OccursAt(Lower(filename), PartMarker, i) || OccursAt(Lower(filename), SplitZipMarker, i)
    ensures MultiVolumeName(filename)
  {
  }

  // ---------------------------------------------------------------------
  // handleCleanup: the deletion candidate
  // ---------------------------------------------------------------------

  /** Why a file was chosen: the values the source prints in its reason. */
  datatype Reason =
    | NoReason
    | Older(t1: Time, t2: Time)
    | FewerFiles(c1: int, c2: int)
    | Smaller(s1: int64, s2: int64)
    | Chosen

  /** The outcome of handleCleanup for one pair: Act means that
      performFileAction(target, preserved, ...) is called. */
  datatype Cleanup =
    | PartsSkipped
    | KeepBoth
    | InvalidChoice
    | NoCandidate
    | Declined(candidate: ArchiveFile, why: Reason)
    | Act(target: ArchiveFile, preserved: ArchiveFile, reason: Reason)

  /** The flags handleCleanup reads. */
  datatype CleanupConfig = CleanupConfig(deleteMode: string, interactive: bool, autoDelete: bool)

  /** The zero ArchiveFile that toDelete starts as; an empty path means that
      no candidate was chosen. */
  const NoFile: ArchiveFile := ArchiveFile("", "", 0, "", Time(0, "", ""), 0)

  /** "oldest": the strictly older file. */
  function OlderOf(f1: ArchiveFile, f2: ArchiveFile): Option<(ArchiveFile, Reason)>
  {
    if f1.modTime.instant < f2.modTime.instant then Some((f1, Older(f1.modTime, f2.modTime)))
    else if f2.modTime.instant < f1.modTime.instant then Some((f2, Older(f2.modTime, f1.modTime)))
    else None
  }

  /** "contents", first rule: the smaller of two known, different counts. */
  function FewerFilesOf(f1: ArchiveFile, f2: ArchiveFile): Option<(ArchiveFile, Reason)>
  {
    if f1.fileCount > 0 && f2.fileCount > 0 then
      if f1.fileCount < f2.fileCount then Some((f1, FewerFiles(f1.fileCount, f2.fileCount)))
      else if f2.fileCount < f1.fileCount then Some((f2, FewerFiles(f2.fileCount, f1.fileCount)))
      else None
    else None
  }

  /** "contents", fallback rule: the strictly smaller file. */
  function SmallerOf(f1: ArchiveFile, f2: ArchiveFile): Option<(ArchiveFile, Reason)>
  {
    if f1.size < f2.size then Some((f1, Smaller(f1.size, f2.size)))
    else if f2.size < f1.size then Some((f2, Smaller(f2.size, f1.size)))
    else None
  }

  /** The candidate of a delete mode; the size rule applies when the count
      rule chose nothing with a path. */
  function Candidate(f1: ArchiveFile, f2: ArchiveFile, mode: string): Option<(ArchiveFile, Reason)>
  {
    if mode == "oldest" then OlderOf(f1, f2)
    else if mode == "contents" then
      var byCount := FewerFilesOf(f1, f2);
      if byCount.Some? && byCount.value.0.path != "" then byCount else SmallerOf(f1, f2)
    else None
  }

  /** handleCleanup's decision. Volumes of a set are never touched; an
      action removes one of the two files and keeps the other, and outside
      interactive mode only a file with a path is removed. */
  function CleanupOf(f1: ArchiveFile, f2: ArchiveFile, config: CleanupConfig,
                     choice: string, response: string): (r: Cleanup)
    ensures MultiVolumeName(f1.name) || MultiVolumeName(f2.name) ==> r == PartsSkipped
    ensures r.Act? ==> r.target in {f1, f2} && r.preserved in {f1, f2}
    ensures r.Act? && f1.path != f2.path ==> r.target != r.preserved
    ensures r.Act? && !config.interactive ==> r.target.path != ""
  {
    if MultiVolumeName(f1.name) || MultiVolumeName(f2.name) then PartsSkipped
    else if config.interactive then
      var c := Lower(choice);
      if c == "1" then Act(f1, f2, Chosen)
      else if c == "2" then Act(f2, f1, Chosen)
      else if c == "k" then KeepBoth
      else InvalidChoice
    else
      var cand := Candidate(f1, f2, config.deleteMode);
      if cand.None? || cand.value.0.path == "" then NoCandidate
      else
        CandidateOfPair(f1, f2, config.deleteMode);
        var (target, reason) := cand.value;
        var preserved := if target.path == f1.path then f2 else f1;
        if config.autoDelete || Lower(response) == "y" then Act(target, preserved, reason)
        else Declined(target, reason)
  }

  method HandleCleanup(f1: ArchiveFile, f2: ArchiveFile, config: CleanupConfig,
                       choice: string, response: string) returns (d: Cleanup)
    ensures d == CleanupOf(f1, f2, config, choice, response)
  {
    var part1 := IsMultiVolumeName(f1.name);
    var part2 := IsMultiVolumeName(f2.name);
    if part1 || part2 {
      return PartsSkipped;
    }
    if config.interactive {
      var c := Lower(choice);
      if c == "1" {
        return Act(f1, f2, Chosen);
      } else if c == "2" {
        return Act(f2, f1, Chosen);
      } else if c == "k" {
        return KeepBoth;
      }
      return InvalidChoice;
    }
    var toDelete := NoFile;
    var reason := NoReason;
    if config.deleteMode == "oldest" {
      if f1.modTime.instant < f2.modTime.instant {
        toDelete, reason := f1, Older(f1.modTime, f2.modTime);
      } else if f2.modTime.instant < f1.modTime.instant {
        toDelete, reason := f2, Older(f2.modTime, f1.modTime);
      }
    } else if config.deleteMode == "contents" {
      if f1.fileCount > 0 && f2.fileCount > 0 {
        if f1.fileCount < f2.fileCount {
          toDelete, reason := f1, FewerFiles(f1.fileCount, f2.fileCount);
        } else if f2.fileCount < f1.fileCount {
          toDelete, reason := f2, FewerFiles(f2.fileCount, f1.fileCount);
        }
      }
      if toDelete.path == "" {
        if f1.size < f2.size {
          toDelete, reason := f1, Smaller(f1.size, f2.size);
        } else if f2.size < f1.size {
          toDelete, reason := f2, Smaller(f2.size, f1.size);
        }
      }
    }
    if toDelete.path == "" {
      return NoCandidate;
    }
    var preserved := f1;
    if toDelete.path == f1.path {
      preserved := f2;
    }
    if config.autoDelete || Lower(response) == "y" {
      return Act(toDelete, preserved, reason);
    }
    return Declined(toDelete, reason);
  }

  /** Two files with non-empty, different paths, as a scan produces them. */
  predicate Distinct(f1: ArchiveFile, f2: ArchiveFile)
  {
    f1.path != "" && f2.path != "" && f1.path != f2.path
  }

  /** A multi-volume part is never acted on, in any mode. */
  lemma PartsNeverDeleted(f1: ArchiveFile, f2: ArchiveFile, config: CleanupConfig,
                          choice: string, response: string)
    requires MultiVolumeName(f1.name) || MultiVolumeName(f2.name)
    ensures !CleanupOf(f1, f2, config, choice, response).Act?
  {
  }

  /** Whatever the mode, an action deletes one member of the pair and
      preserves the other. */
  lemma PreservedIsOther(f1: ArchiveFile, f2: ArchiveFile, config: CleanupConfig,
                         choice: string, response: string)
    requires Distinct(f1, f2)
    ensures var d := CleanupOf(f1, f2, config, choice, response);
      d.Act? ==> (d.target == f1 && d.preserved == f2) || (d.target == f2 && d.preserved == f1)
  {
    if !MultiVolumeName(f1.name) && !MultiVolumeName(f2.name) && !config.interactive {
      CandidateOfPair(f1, f2, config.deleteMode);
    }
  }

  /** The candidate of any mode is one of the two files. */
  lemma CandidateOfPair(f1: ArchiveFile, f2: ArchiveFile, mode: string)
    ensures var c := Candidate(f1, f2, mode); c.Some? ==> c.value.0 == f1 || c.value.0 == f2
  {
  }

  /** Mode "oldest" acts, unprompted or confirmed, exactly when the times
      differ, and then on the strictly older file. */
  lemma OldestRule(f1: ArchiveFile, f2: ArchiveFile, choice: string, response: string)
    requires Distinct(f1, f2) && !MultiVolumeName(f1.name) && !MultiVolumeName(f2.name)
    ensures var d := CleanupOf(f1, f2, CleanupConfig("oldest", false, true), choice, response);
      && (d.Act? <==> f1.modTime.instant != f2.modTime.instant)
      && (d.Act? ==> d.target.modTime.instant < d.preserved.modTime.instant)
      && (!d.Act? ==> d == NoCandidate)
  {
    assert Candidate(f1, f2, "oldest") == OlderOf(f1, f2);
  }

  /** Mode "contents" with two known, different file counts: the file with
      fewer entries goes. */
  lemma ContentsByCount(f1: ArchiveFile, f2: ArchiveFile, choice: string, response: string)
    requires Distinct(f1, f2) && !MultiVolumeName(f1.name) && !MultiVolumeName(f2.name)
    requires f1.fileCount > 0 && f2.fileCount > 0 && f1.fileCount != f2.fileCount
    ensures var d := CleanupOf(f1, f2, CleanupConfig("contents", false, true), choice, response);
      d.Act? && d.target.fileCount < d.preserved.fileCount
  {
    assert Candidate(f1, f2, "contents") == FewerFilesOf(f1, f2);
  }

  /** Mode "contents" otherwise: the strictly smaller file goes, and equal
      sizes give no candidate. */
  lemma ContentsBySize(f1: ArchiveFile, f2: ArchiveFile, choice: string, response: string)
    requires Distinct(f1, f2) && !MultiVolumeName(f1.name) && !MultiVolumeName(f2.name)
    requires !(f1.fileCount > 0 && f2.fileCount > 0 && f1.fileCount != f2.fileCount)
    ensures var d := CleanupOf(f1, f2, CleanupConfig("contents", false, true), choice, response);
      && (d.Act? <==> f1.size != f2.size)
      && (d.Act? ==> d.target.size < d.preserved.size)
      && (!d.Act? ==> d == NoCandidate)
  {
    assert FewerFilesOf(f1, f2).None?;
    assert Candidate(f1, f2, "contents") == SmallerOf(f1, f2);
  }

  /** Without automatic deletion, only a "y" answer (in any case) acts. */
  lemma ConfirmationRule(f1: ArchiveFile, f2: ArchiveFile, mode: string, choice: string, response: string)
    requires Lower(response) != "y"
    ensures !CleanupOf(f1, f2, CleanupConfig(mode, false, false), choice, response).Act?
  {
  }

  // ---------------------------------------------------------------------
  // analyzeSameSizeDifferentName: the same-set skip
  // ---------------------------------------------------------------------

  /** Two different volumes of one multi-volume set. */
  predicate SameSetParts(name1: string, name2: string)
  {
    var v1 := MultiVolumePart(name1);
    var v2 := MultiVolumePart(name2);
    v1.isPart && v2.isPart && v1.base == v2.base && v1.part != v2.part
  }

  /** A pair of equal-size files is reported when it is not two volumes of
      one set and its name similarity reaches the threshold. */
  predicate PairReported(f1: ArchiveFile, f2: ArchiveFile, sim: real, threshold: int)
  {
    !SameSetParts(f1.name, f2.name) && sim >= threshold as real
  }

  /** Two volumes of one separator-named set ("<b>.part<p>.rar" and the like)
      are never reported, however alike their names. */
  lemma VolumesOfOneSetSkipped(f1: ArchiveFile, f2: ArchiveFile, b: string, p1: string, p2: string,
                               ext1: string, ext2: string, sim: real, threshold: int)
    requires p1 != [] && AllDigits(p1) && p2 != [] && AllDigits(p2) && p1 != p2
    requires ext1 == [] || !IsDigit(ext1[0])
    requires ext2 == [] || !IsDigit(ext2[0])
    requires !Contains(Lower(ext1), ".part") && !Contains(Lower(ext2), ".part")
    requires f1.name == b + ".part" + p1 + ext1 && f2.name == b + ".part" + p2 + ext2
    ensures !PairReported(f1, f2, sim, threshold)
  {
    SeparatorVolume(b, p1, ext1);
    SeparatorVolume(b, p2, ext2);
  }

  /** Two numbered volumes of one zip set ("<b>.zip.<p>") are never reported. */
  lemma ZipVolumesOfOneSetSkipped(f1: ArchiveFile, f2: ArchiveFile, b: string, p1: string, p2: string,
                                  sim: real, threshold: int)
    requires p1 != [] && AllDigits(p1) && p2 != [] && AllDigits(p2) && p1 != p2
    requires !Contains(Lower(b), "part")
    requires f1.name == b + ".zip." + p1 && f2.name == b + ".zip." + p2
    ensures !PairReported(f1, f2, sim, threshold)
  {
    ZipVolume(b, p1);
    ZipVolume(b, p2);
  }

  /** Any other pair is reported exactly when the similarity reaches the
      threshold: two volumes of different sets are compared like any names. */
  lemma OtherSetsCompared(f1: ArchiveFile, f2: ArchiveFile, b1: string, b2: string, p: string,
                          sim: real, threshold: int)
    requires p != [] && AllDigits(p) && Lower(b1) != Lower(b2)
    requires f1.name == b1 + ".part" + p + ".rar" && f2.name == b2 + ".part" + p + ".rar"
    ensures PairReported(f1, f2, sim, threshold) <==> sim >= threshold as real
  {
    RarTail();
    SeparatorVolume(b1, p, ".rar");
    SeparatorVolume(b2, p, ".rar");
  }

  /** ".rar" neither starts with a digit nor contains ".part". */
  lemma RarTail()
    ensures !Contains(Lower(".rar"), ".part")
  {
    assert Lower(".rar") == ".rar";
    assert !OccursAt(".rar", ".part", 0);
  }

  // ---------------------------------------------------------------------
  // parseFlags: validation
  // ---------------------------------------------------------------------

  datatype Config = Config(threshold: int, mode: string, deleteMode: string)

  const ThresholdError: string := "❌ Threshold must be between 0 and 100"

  const ModeError: string := "❌ Mode must be 'all', 'size', or 'name'"

  const DeleteModeError: string := "❌ Delete mode must be 'oldest' or 'contents'"

  /** The checks at the end of parseFlags, in their order; an error is the
      message log.Fatal prints before exiting. */
  function Validate(c: Config): (r: Result<Config, string>)
    ensures r.Ok? <==> 0 <= c.threshold <= 100 && c.mode in {"all", "size", "name"}
                       && c.deleteMode in {"", "oldest", "contents"}
    ensures r.Ok? ==> r.value == c
    ensures r.Err? ==> r.error in {ThresholdError, ModeError, DeleteModeError}
    ensures (c.threshold < 0 || c.threshold > 100) ==> r == Err(ThresholdError)
  {
    if c.threshold < 0 || c.threshold > 100 then Err(ThresholdError)
    else if c.mode != "all" && c.mode != "size" && c.mode != "name" then Err(ModeError)
    else if c.deleteMode != "" && c.deleteMode != "oldest" && c.deleteMode != "contents" then
      Err(DeleteModeError)
    else Ok(c)
  }
}
