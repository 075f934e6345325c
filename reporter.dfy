/** The report shapes of internal/reporter/json.go: per-file information and
    the two kinds of duplicate group. Their JSON rendering is not modelled. */
module Reporter {

  datatype FileInfo = FileInfo(
    name: string,
    path: string,
    size: int,
    archiveType: string,
    modTime: string,
    pHash: bv64)

  /** A SizeGroup holds files of one size; a SimilarityGroup holds files that
      share a (name or visual) cluster. */
  datatype Group =
    | SizeGroup(size: int, files: seq<FileInfo>)
    | SimilarityGroup(baseName: string, files: seq<FileInfo>)
}
