# Archive Duplicate Finder — a verified model of its core

Archive Duplicate Finder scans folders of ZIP, RAR and 7z archives (and
loose STL/OBJ models) and looks for duplicates in three ways. It groups
files of identical size. It pairs files whose names are similar, using a
blend of Levenshtein, Jaro-Winkler and bigram-Jaccard scores. It clusters
archives whose preview images have perceptual hashes within Hamming
distance 8. A command-line front end can act on a duplicate pair: it
chooses which file to delete by age or by contents. A web dashboard
serves the report, prunes it when a file is deleted, hides groups marked
as "good" and serves previews picked from inside the archives. An SQLite
cache remembers preview choices and scan results.

This project models that core in Dafny, one module per Go source file:

- `Scanner`: the scanned-file record, multi-volume detection, archive
  typing, size bucketing and the unit choice of `formatBytes`.
- `NameSimilarity`: the fuzzy name scorer and the pair filter of
  `FindSimilarNames`.
- `Archive`: format dispatch, the file classifiers, the preview list, the
  four-tier preview choice, the best-model choice and the key partition
  of `CompareArchiveContents`.
- `Stl`: binary/ASCII detection, the binary header and length check, the
  ASCII line counts and the `CompareSTL` classification.
- `Visual`: the greedy Hamming clustering of `FindVisualDuplicates`.
- `Db`: the cache tables as maps, and the sort-then-hash fingerprint.
- `Finder`: the decision rules of the command-line tool.
- `Web`: the dashboard's report pruning and filtering, content types, the
  preview cache key and the archive test.

Shared modules: `Text` holds the string and byte functions of the Go
standard library that the core uses. `Reporter` holds the report shapes.
`Wrappers` holds `Option` and `Result`.

The loops of the source are methods with loop invariants. Each method is
proved equal to a reference function. The properties are proved about
those functions, as lemmas and `ensures` clauses. Side effects on an
object are `class` methods with `modifies`: the cache tables of `Db.Cache`
and the in-memory report `Web.Report`. Side effects on arrays keep the
array: the in-place sort of `CalculateFingerprint` and the match-flag
arrays of `jaroSimilarity`.

Some things enter as parameters:

- Archive readers: a function from the archive's path and format to the
  entry list, the contents map or one entry's contents.
- SHA-256: an uninterpreted `digest` over the bytes written to the hasher.
- The visual-hash table: a map keyed by path and RFC 3339 modification
  time.
- `Group.Hash`, `CalculateGroupHash` and `IsGroupIgnored`: function values.
- `boundsEqual`: a predicate over the raw coordinate material.
- Console input: the answer strings.
- The file-system outcome of `/delete`: a boolean.

Strings are sequences of characters. Go's string indexing and `len`
count UTF-8 bytes, and the model counts characters; the two agree on
ASCII names (see "## Left out").

## Model

| member | source | states |
|---|---|---|
| Scanner.LeadingDigits | internal/scanner/scanner.go:35-43 | the digit loop collects exactly the longest digit prefix of the text after the separator |
| Scanner.CheckDigits | internal/scanner/scanner.go:55-64 | the digit check is true iff the extension body is non-empty and all ASCII digits |
| Scanner.NumericExtension | internal/scanner/scanner.go:50-76 | the numeric-extension branch equals the reference `NumericExtPart`, including the sub-extension stripping |
| Scanner.IsMultiVolumePart | internal/scanner/scanner.go:23-79 | the method returns exactly `MultiVolumePart(name)`: the first matching separator with digits, else the numeric extension, else `(false, "", "")` |
| Scanner.SeparatorPartDigits | internal/scanner/scanner.go:35-46 | a separator match always yields a non-empty, all-digit part token |
| Scanner.MultiVolumePart | internal/scanner/scanner.go:35-78 | a detected part carries a non-empty all-digit token; a non-detection comes with empty base and token |
| Scanner.SeparatorPartBase | internal/scanner/scanner.go:28-32 | the base found is the name cut at the last occurrence of some separator of the list |
| Scanner.SeparatorBaseIsPrefix | internal/scanner/scanner.go:29-32 | in the separator family the base is a strict prefix of the lowercased name, ending where the last separator starts |
| Scanner.SeparatorPartNone | internal/scanner/scanner.go:28-48 | when no separator occurs, the separator family finds nothing |
| Scanner.SeparatorPartMatch | internal/scanner/scanner.go:29-45 | for a separator that occurs, digits after its last occurrence give the base before it and those digits; no digits pass on to the next separator |
| Scanner.SeparatorPartSkip | internal/scanner/scanner.go:28-30 | a separator that does not occur passes on to the next one |
| Scanner.DigitPrefixOfDigits | internal/scanner/scanner.go:35-43 | a digit run followed by a non-digit (or nothing) is exactly what the digit loop collects |
| Scanner.SeparatorLastIndex | internal/scanner/scanner.go:29 | in `b.partN<ext>` with digits N and no `.part` in the tail, the last `.part` is the one after `b` |
| Scanner.FirstSeparatorMatch | internal/scanner/scanner.go:28-45 | when `.part` occurs with digits after its last occurrence, the first separator decides the answer |
| Scanner.SeparatorVolume | internal/scanner/scanner.go:27-46 | every name `b.partN<ext>`, with N digits and a tail that neither starts with a digit nor holds `.part`, is part N of the set with base lower(b) |
| Scanner.SeparatorVolumesShareBase | internal/scanner/scanner.go:27-46 | two such names with the same `b` get the same base, and the same part iff their digit tokens are equal |
| Scanner.NoSeparatorInZipName | internal/scanner/scanner.go:28-48 | a name `b.zip.N` whose lowercased `b` holds no `part` matches no separator of the list |
| Scanner.ZipNameExts | internal/scanner/scanner.go:51-71 | in `b.zip.N` the last extension is `.N`, and what is left once it is cut ends in `.zip` |
| Scanner.NumericExtOfZipName | internal/scanner/scanner.go:50-76 | the numeric-extension branch reads `b.zip.N` as part N with base `b`, the `.zip` stripped |
| Scanner.ZipVolume | internal/scanner/scanner.go:23-79 | every name `b.zip.N`, with N digits and no `part` in lower(b), is part N of the set with base lower(b) |
| Scanner.NumericKeepsOtherSubExt | internal/scanner/scanner.go:66-74 | a sub-extension that is not an archive extension stays in the base |
| Scanner.SplitZipNotDetected | internal/scanner/scanner.go:50-78 | `archive.zNN` is not a part: `(false, "", "")` |
| Scanner.GetArchiveType | internal/scanner/scanner.go:118-134 | the result is one of the five type names or empty; it is empty iff the lowercased extension is none of `.zip/.rar/.7z/.stl/.obj`; otherwise it is that extension without the dot |
| Scanner.ArchiveTypeCaseInsensitive | internal/scanner/scanner.go:119 | the type does not depend on letter case |
| Scanner.OfSizeMembers | internal/scanner/scanner.go:137-145 | a size's bucket holds exactly the input files of that size |
| Scanner.OfSizeAbsent | internal/scanner/scanner.go:137-145 | a size that no file has gets no bucket contents |
| Scanner.GroupedStep | internal/scanner/scanner.go:141 | appending file k to the bucket of its size extends the grouping of the first k files to k+1 |
| Scanner.GroupBySize | internal/scanner/scanner.go:137-145 | the buckets are keyed by exactly the sizes that occur; each bucket is the input-order list of files of that size and is non-empty |
| Scanner.BucketOfOwnSize | internal/scanner/scanner.go:137-145 | every file lies in the bucket of its own size and in no other |
| Scanner.HitsDistinct | internal/scanner/scanner.go:137-145 | in a list of distinct sizes (the keys of the map) a size occurs once if listed and never otherwise |
| Scanner.BucketsSnoc | internal/scanner/scanner.go:139-142 | appending a file to the scan lengthens the buckets of the listed sizes by the number of times its size is listed |
| Scanner.BucketsLength | internal/scanner/scanner.go:137-145 | over distinct sizes covering every file, the buckets hold exactly as many entries as there are files |
| Scanner.BucketsMembers | internal/scanner/scanner.go:137-145 | a file is in the buckets of the listed sizes iff it was scanned and its size is listed |
| Scanner.GroupsPartitionFiles | internal/scanner/scanner.go:137-145 | the map GroupBySize returns, read in any order of its keys, has bucket lengths summing to the number of files and holds exactly the scanned files |
| Scanner.FormatStep | internal/scanner/scanner.go:169-172 | one loop turn keeps `div <= bytes < div*1024` with the quotient still at least one |
| Scanner.Pow1024Six | internal/scanner/scanner.go:169-173 | 1024^7 exceeds every int64, so the loop runs at most five times |
| Scanner.FormatUnit | internal/scanner/scanner.go:163-174 | under 1024 bytes no unit is used; otherwise `div = 1024^(exp+1)`, `div <= bytes < div*1024`, `exp <= 5`, and the unit letter is `"KMGTPE"[exp]` (the identical function at cmd/finder/main.go:644-655 is the same model) |
| NameSimilarity.MinOf | internal/similarity/name.go:330-341 | `min` returns 0 for no values, otherwise a member of the values that is at most every value |
| NameSimilarity.MaxOf | internal/similarity/name.go:343-354 | `max` returns 0 for no values, otherwise a member of the values that is at least every value |
| NameSimilarity.NormalizeFilename | internal/similarity/name.go:129-144 | the normalized name contains no `_` or `-` and has no white space at either end |
| NameSimilarity.NormalizeDropsLastExtension | internal/similarity/name.go:131-134 | only the text after the last `.` is removed |
| NameSimilarity.NormalizeNoDot | internal/similarity/name.go:131-134 | a name without a dot is cleaned whole |
| NameSimilarity.LevenshteinDistance | internal/similarity/name.go:159-197 | the matrix-filling method returns the reference edit distance |
| NameSimilarity.Levenshtein | internal/similarity/name.go:159-197 | the distance is at least the difference of the lengths and at most the longer length |
| NameSimilarity.FillRow | internal/similarity/name.go:181-194 | filling row i from the rows above leaves every entry of rows 0..i equal to the reference edit distance of the prefixes and the first column of the later rows untouched |
| NameSimilarity.DistBounds | internal/similarity/name.go:173-194 | every matrix entry lies between the length difference and the longer length |
| NameSimilarity.DistLower | internal/similarity/name.go:173-194 | no entry is below the difference of the prefix lengths |
| NameSimilarity.DistUpper | internal/similarity/name.go:173-194 | no entry is above the longer prefix length |
| NameSimilarity.DistZeroOfEqual | internal/similarity/name.go:181-194 | equal prefixes are at distance zero |
| NameSimilarity.EqualOfDistZero | internal/similarity/name.go:173-194 | prefixes at distance zero are equal |
| NameSimilarity.DistSymmetric | internal/similarity/name.go:181-194 | the distance is symmetric |
| NameSimilarity.LevenshteinProperties | internal/similarity/name.go:159-197 | `d(s,s) = 0`; `d(s,"") = len(s)`; `d = 0` iff the strings are equal; `abs(len1-len2) <= d <= max(len1,len2)`; symmetry |
| NameSimilarity.LevenshteinSimilarity | internal/similarity/name.go:147-156 | the score lies in [0,1] and is 1 exactly for equal strings, including two empty strings |
| NameSimilarity.CountSet | internal/similarity/name.go:251-253 | setting a clear flag adds one to the number of set flags |
| NameSimilarity.NextSet | internal/similarity/name.go:268-270 | when flags remain at or after k, the next set flag exists below the array length, and none lies between |
| NameSimilarity.FirstFree | internal/similarity/name.go:247-255 | the window scan finds the first unclaimed equal character of the window, or none |
| NameSimilarity.MatchingCounts | internal/similarity/name.go:243-256 | after the first phase both flag arrays have exactly `matches` flags set |
| NameSimilarity.JaroMatches | internal/similarity/name.go:243-256 | `matches <= min(len1, len2)` |
| NameSimilarity.JaroTranspositions | internal/similarity/name.go:262-275 | `transpositions <= matches` |
| NameSimilarity.Transpositions | internal/similarity/name.go:262-275 | the walk's count is at most the number of flagged characters of s1 left |
| NameSimilarity.Jaro | internal/similarity/name.go:218-281 | 1 for equal strings; 0 when they differ and one is empty; always in [0,1] |
| NameSimilarity.JaroFormula | internal/similarity/name.go:278-280 | the Jaro formula over valid counts lies in [0,1] |
| NameSimilarity.FindPartner | internal/similarity/name.go:247-255 | the inner scan returns the reference window match |
| NameSimilarity.Window | internal/similarity/name.go:244-245 | the window is `[max(0, i-d), min(i+d+1, len2))` |
| NameSimilarity.MatchDistanceOf | internal/similarity/name.go:231-234 | `max(len1,len2)/2 - 1`, clamped at 0 |
| NameSimilarity.MatchOne | internal/similarity/name.go:243-256 | one step of the first phase moves the flags and count from position i to i+1 of the reference |
| NameSimilarity.MatchPhase | internal/similarity/name.go:236-256 | the first phase leaves the flag arrays and count equal to the reference matching |
| NameSimilarity.TranspositionsStep | internal/similarity/name.go:264-275 | one step of the transposition walk in terms of the next set flag of s2 |
| NameSimilarity.SkipToFlag | internal/similarity/name.go:268-270 | the `k` walk stays in bounds and stops at the next set flag, because flags remain |
| NameSimilarity.CountTranspositions | internal/similarity/name.go:262-275 | the second phase returns the reference transposition count; every index `k` it reads is in range |
| NameSimilarity.JaroSimilarity | internal/similarity/name.go:218-281 | the two-array method returns the reference Jaro score |
| NameSimilarity.PrefixFrom | internal/similarity/name.go:204-211 | the counted characters are equal, and the count stops at the first difference or the limit |
| NameSimilarity.CommonPrefix | internal/similarity/name.go:204-211 | the prefix length is at most `min(len1, len2, 4)` and counts only leading equal characters |
| NameSimilarity.WinklerBound | internal/similarity/name.go:214 | the Winkler adjustment with at most four prefix characters keeps the score in [0,1] and keeps a perfect score perfect |
| NameSimilarity.JaroWinkler | internal/similarity/name.go:200-215 | the score lies in [0,1] and is 1 for equal strings |
| NameSimilarity.PrefixLength | internal/similarity/name.go:204-211 | the prefix loop returns the reference prefix length |
| NameSimilarity.JaroWinklerSimilarity | internal/similarity/name.go:200-215 | the method returns the reference Jaro-Winkler score |
| NameSimilarity.NgramsBelow | internal/similarity/name.go:322-324 | the first k positions give at most k n-grams, each of length n |
| NameSimilarity.NgramsBelowMembers | internal/similarity/name.go:322-324 | an n-gram is in the set iff it starts at one of the first k positions |
| NameSimilarity.NgramsProperties | internal/similarity/name.go:314-327 | the set is never empty; it is `{s}` when `len(s) < n`; otherwise it has at most `len(s)-n+1` elements, each of length n, exactly the substrings of length n |
| NameSimilarity.GetNgrams | internal/similarity/name.go:314-327 | the map-filling loop returns the reference n-gram set |
| NameSimilarity.Jaccard | internal/similarity/name.go:288-310 | the Jaccard score lies in [0,1] and is 1 for equal sets |
| NameSimilarity.CountCommon | internal/similarity/name.go:296-302 | the counting loop returns the size of the intersection |
| NameSimilarity.NgramSimilarityOf | internal/similarity/name.go:284-311 | the method returns the reference n-gram similarity |
| NameSimilarity.NgramSelf | internal/similarity/name.go:284-311 | a name compared with itself scores 1 |
| NameSimilarity.RoundTenth | internal/similarity/name.go:120 | rounding to one decimal moves a value by at most 0.05 |
| NameSimilarity.CalculateNormalizedSimilarity | internal/similarity/name.go:107-121 | the score lies in [0,100] and is 100 for equal normalized names |
| NameSimilarity.PrefixFromSymmetric | internal/similarity/name.go:204-211 | the common-prefix walk counts the same length whichever string is first |
| NameSimilarity.CommonPrefixSymmetric | internal/similarity/name.go:204-211 | the Winkler prefix length, capped at 4, is symmetric |
| NameSimilarity.LevenshteinSimilaritySymmetric | internal/similarity/name.go:147-156 | the Levenshtein similarity of (a, b) equals that of (b, a) |
| NameSimilarity.JaccardSymmetric | internal/similarity/name.go:288-310 | the Jaccard index of two gram sets does not depend on their order |
| NameSimilarity.ScorePartsSymmetric | internal/similarity/name.go:107-121 | the Levenshtein similarity, the prefix length and the bigram similarity do not depend on the order of the two names |
| NameSimilarity.ScoreSymmetric | internal/similarity/name.go:107-121 | when Jaro is symmetric on the normalized pair, the blended score of (a, b) equals that of (b, a) |
| NameSimilarity.RowMembers | internal/similarity/name.go:55-83 | a row holds exactly the accepted pairs of file i with a later file before j |
| NameSimilarity.RowsMembers | internal/similarity/name.go:52-84 | the rows hold exactly the accepted pairs whose first index is below i |
| NameSimilarity.Scored | internal/similarity/name.go:77-81 | every pair is reported with its own score |
| NameSimilarity.FoundPairs | internal/similarity/name.go:26-104 | the result is empty for fewer than 2 files; a pair is reported iff it is `(files[a], files[b])` with `a < b`, different sizes, passing the 0.4–2.5 length-ratio gate when both names are non-empty, and scoring at least the threshold |
| NameSimilarity.LengthRatioOk | internal/similarity/name.go:64-71 | the length check passes iff a name is empty or `0.4 <= len1/len2 <= 2.5` |
| NameSimilarity.ComparePair | internal/similarity/name.go:58-82 | one comparison keeps the pair iff the filter accepts it, and then with its score |
| NameSimilarity.NormalizeAll | internal/similarity/name.go:31-38 | the precomputed names are the normalized file names |
| NameSimilarity.RowExtend | internal/similarity/name.go:55-83 | one inner step extends the row by the pair iff it is kept |
| NameSimilarity.PrecomputedNames | internal/similarity/name.go:31-76 | comparing the precomputed names gives the same filter and scores as normalizing on the spot |
| NameSimilarity.ScanRow | internal/similarity/name.go:53-83 | the inner loop appends exactly the row of file i |
| NameSimilarity.RunJobs | internal/similarity/name.go:46-86 | the jobs, run in order, produce all rows |
| NameSimilarity.FindSimilarNames | internal/similarity/name.go:26-104 | the method returns the sequential reference result |
| Archive.FormatOfSuffix | internal/archive/extractor.go:24-36 | the lowercased extension decides the format; any other extension gives no format |
| Archive.FormatOfLower | internal/archive/extractor.go:25 | format dispatch does not depend on letter case |
| Archive.FormatOf | internal/archive/extractor.go:24-36 | a format is chosen iff the lowercased extension is `.zip`, `.rar` or `.7z` |
| Archive.ExtractArchive | internal/archive/extractor.go:24-37 | an unsupported extension gives the "unsupported archive format" error; otherwise the result is the reader's for that archive path and format |
| Archive.GetFileFromArchive | internal/archive/extractor.go:887-900 | an unsupported extension gives the extraction-format error; otherwise the result is the reader's for that archive path, format and entry name |
| Archive.MediaExts | internal/archive/extractor.go:408-424 | a name classed as an image has one of the four image extensions, and one classed as a video one of the five video extensions, in any case |
| Archive.ModelExts | internal/archive/extractor.go:199-209 | a name classed as a model has the extension `.stl` or `.obj`, and one classed as STL the extension `.stl`, in any case |
| Archive.JunkRejected | internal/archive/extractor.go:408-424 | `__macosx` excludes images, videos and models; `@eadir` excludes images and videos only; an STL outside `__macosx` is a model (isModelFile, lines 199-205, applies the same `__macosx` test) |
| Archive.ClassesDisjoint | internal/archive/extractor.go:408-424 | no name is two of image, video and model, isModelFile (lines 199-205) included |
| Archive.ExtsDisjoint | internal/archive/extractor.go:413-423 | the image and video extension lists share nothing and hold no model extension |
| Archive.ModelExt | internal/archive/extractor.go:204 | a name ending in `.stl` or `.obj` has that extension |
| Archive.ClassifiedNonEmpty | internal/archive/extractor.go:408-424 | no classified name is empty, so a found best path is never `""`; isModelFile (lines 199-205) included |
| Archive.FilterMembers | internal/archive/extractor.go:60-66 | the filter keeps exactly the accepted entries |
| Archive.FilterIdempotent | internal/archive/extractor.go:60-66 | filtering twice is filtering once |
| Archive.FilterPreviews | internal/archive/extractor.go:60-66 | the loop keeps, in order, exactly the images, models and videos |
| Archive.ListPreviewsInArchive | internal/archive/extractor.go:40-67 | the method returns the reference preview list of the listing the reader gives for that archive path; an unsupported extension gives the error |
| Archive.LargestIsFirstMaximal | internal/archive/extractor.go:117-125 | the size found is at least every entry's of the kind; with a positive size, the path found is the first entry of that maximal size |
| Archive.LargestFound | internal/archive/extractor.go:117-128 | a path is found iff some entry of the kind has a positive size |
| Archive.LargestOfKind | internal/archive/extractor.go:117-125 | the scan with strict `>` returns the reference (first maximal) choice |
| Archive.KeywordModelFirst | internal/archive/extractor.go:143-148 | a model found is the first model with a keyword, of any size |
| Archive.KeywordModelNone | internal/archive/extractor.go:143-148 | no model is found only when no model has a keyword |
| Archive.KeywordModelFound | internal/archive/extractor.go:143-148 | a keyword model found is one of the listed model files |
| Archive.FirstKeywordModel | internal/archive/extractor.go:143-148 | the early-return loop returns the reference keyword model |
| Archive.PreviewTiers | internal/archive/extractor.go:113-163 | a positive image wins; a video is chosen only without one; a keyword model only without both; the largest model only after that; otherwise the "no preview found" error |
| Archive.PreviewChosenFromList | internal/archive/extractor.go:117-161 | a chosen preview is one of the listed entries |
| Archive.SelectPreview | internal/archive/extractor.go:113-163 | the four loops return the reference choice |
| Archive.FindPreviewPathInArchive | internal/archive/extractor.go:108-164 | a listing error is passed on; otherwise the result is the four-tier choice |
| Archive.ModelTiers | internal/archive/extractor.go:172-196 | the result is a listed model; it fails iff no model has a keyword and no model has a positive size; on a non-empty list the error is "no 3D model found" |
| Archive.FindBestSTLInArchive | internal/archive/extractor.go:167-197 | a listing error is passed on; otherwise the result is the keyword-then-largest model choice |
| Archive.Append | internal/archive/extractor.go:871-879 | appending a new key keeps the list duplicate-free |
| Archive.SplitKeys | internal/archive/extractor.go:869-881 | the two lists hold the keys inside and outside the other set, each key once |
| Archive.CompareArchiveContents | internal/archive/extractor.go:857-884 | extraction errors are passed on; otherwise `common`, `unique1` and `unique2` hold, without repetition, exactly the shared keys, the first archive's own keys and the second's own keys; an archive compared with itself has no unique names |
| Archive.NoElements | internal/archive/extractor.go:869-881 | a key list is empty iff it has no elements |
| Stl.STLFileExt | internal/stl/parser.go:21-24 | an STL name has extension `.stl`, whatever its case |
| Stl.IsBinarySTL | internal/stl/parser.go:100-112 | under 84 bytes, or starting with `solid`, the data is not binary; 84 bytes or more whose first byte is not `s` are binary |
| Stl.LE32 | internal/stl/parser.go:121 | the little-endian word is below 2^32 |
| Stl.ParseBinary | internal/stl/parser.go:115-132 | the binary parse succeeds iff `len >= 84` and `len >= 84 + 50*T`, with T the little-endian word at bytes 80..83; then the triangle count is T, the vertex count 3T, and the info is binary; under 84 bytes the error is "file too small for binary STL" |
| Stl.CoordsPrefix | internal/stl/parser.go:144-167 | the coordinate words read depend only on the first `84 + 50*T` bytes |
| Stl.TrailingBytesIgnored | internal/stl/parser.go:124-167 | bytes after the last record change neither success, count nor bounds |
| Stl.ReadVertices | internal/stl/parser.go:150-163 | the vertex loop reads the nine coordinate words of triangle t, all inside the data |
| Stl.ParseBinarySTL | internal/stl/parser.go:115-170 | returns the reference binary parse: the two error results, or T triangles, 3T vertices and the bounds of the record words |
| Stl.ReadCoords | internal/stl/parser.go:144-167 | the offset-advancing record loop reads exactly the coordinate words of the T records, each read lying within `[84, 84+50T)` |
| Stl.NextNewline | internal/stl/parser.go:174 | the line split finds the next newline or the end |
| Stl.SplitJoin | internal/stl/parser.go:174 | the split lines, joined by newlines, give the data back and hold no newline |
| Stl.TrimBytesLeft | internal/stl/parser.go:192 | left trimming removes a prefix and leaves no leading space |
| Stl.TrimBytesRight | internal/stl/parser.go:192 | right trimming removes a suffix and leaves no trailing space |
| Stl.AsciiCounts | internal/stl/parser.go:191-211 | facet and vertex lines are counted separately, never exceeding the line count |
| Stl.AsciiStep | internal/stl/parser.go:191-211 | one line updates at most one counter |
| Stl.ParseASCIISTL | internal/stl/parser.go:173-217 | the ASCII parse never fails and counts trimmed `facet` lines as triangles and `vertex` lines as vertices |
| Stl.ParseAscii | internal/stl/parser.go:173-217 | the ASCII parse is marked non-binary with text bounds; its facet and vertex counts together never exceed the number of lines, and the vertex count is the number of vertex lines kept |
| Stl.OnlyBinaryFails | internal/stl/parser.go:91-112 | a parse fails only for binary data shorter than the header's record count demands; non-binary data (under 84 bytes or starting with `solid`) always parses as ASCII |
| Stl.HeadShape | internal/stl/parser.go:53-60 | a positive delta reads "Geometry expanded (+…", a negative one "Geometry simplified (-…" |
| Stl.CompareSTL | internal/stl/parser.go:27-73 | identical iff byte-equal, with no diff then; unequal inputs always get a diff; a parse failure gives "Unable to parse STL format" with zero counts; otherwise the counts of both parses |
| Stl.Describe | internal/stl/parser.go:53-70 | delta > 0 is "expanded", delta < 0 "simplified", either with ", dimensions changed" when bounds differ; equal counts with different bounds "transformed"; otherwise "Minor modifications" |
| Visual.BitsBelow | internal/archive/visual.go:46-51 | the set bits below n number at most n |
| Visual.Hamming | internal/archive/visual.go:46-51 | the Hamming distance of two 64-bit hashes is at most 64 |
| Visual.ZeroBits | internal/archive/visual.go:46-51 | zero has no set bits |
| Visual.HammingSelf | internal/archive/visual.go:46-51 | a hash is at distance 0 from itself |
| Visual.HammingSymmetric | internal/archive/visual.go:46-51 | the distance is symmetric |
| Visual.Hashes | internal/visual/scanner.go:104-109 | no more hashed files than files |
| Visual.HashesInOrder | internal/visual/scanner.go:104-109 | exactly the files with a cached hash under (path, RFC 3339 time) take part, in input order |
| Visual.HashesStored | internal/visual/scanner.go:104-109 | every collected entry carries the hash cached for its file |
| Visual.CollectHashes | internal/visual/scanner.go:102-109 | the collection loop returns the reference hashed list |
| Visual.Infos | internal/visual/scanner.go:143-155 | one report entry per group member |
| Visual.SweepFrom | internal/visual/scanner.go:126-139 | the inner loop returns the reference sweep from seed i |
| Visual.ToInfos | internal/visual/scanner.go:143-155 | the conversion loop returns the reference report entries |
| Visual.FindVisualDuplicates | internal/visual/scanner.go:92-165 | the method returns the reference clustering; the threshold argument plays no part |
| Visual.SweepFacts | internal/visual/scanner.go:129-139 | a sweep only adds unvisited files within distance 8 of the seed and marks them visited |
| Visual.PathsOfOne | internal/visual/scanner.go:126 | a one-file group has that path only |
| Visual.GroupOfSweep | internal/visual/scanner.go:141-160 | an emitted group is well formed and built from hashed files |
| Visual.ConcatFacts | internal/visual/scanner.go:121-162 | the facts of the groups so far and of the later groups combine |
| Visual.SeedFacts | internal/visual/scanner.go:121-162 | the group of one seed meets the facts and visits only new paths |
| Visual.ClustersFacts | internal/visual/scanner.go:121-162 | every group is well formed, built from hashed files, avoids earlier-visited paths, and no two groups share a path |
| Visual.VisualGroups | internal/visual/scanner.go:92-165 | every group has at least 2 members, all within Hamming distance 8 of the first (the seed), with distinct paths; no path is in two groups; each BaseName is "Visual Match: " and the seed's name; members are files with a cached hash |
| Visual.FewHashesNoGroups | internal/visual/scanner.go:111-113 | fewer than two hashed files give no groups |
| Visual.ClusterSeeds | internal/visual/scanner.go:121-162 | the seeds of the groups come in increasing hash-list position |
| Visual.VisualSeedOrder | internal/visual/scanner.go:92-161 | no cache or fewer than 2 files gives no groups; groups are ordered by their seed's position in the input |
| Db.PreviewLookup | internal/db/cache.go:100-108 | a hit iff a row for the path exists with the same stored mod time; a miss returns `""` |
| Db.ScanLookup | internal/db/cache.go:78-90 | a hit iff the fingerprint has a row; a miss returns no groups |
| Db.Cache.constructor | internal/db/cache.go:17-58 | a cache over the given tables |
| Db.Cache.GetPreviewPath | internal/db/cache.go:100-108 | the method answers the mod-time-checked lookup |
| Db.Cache.PutPreviewPath | internal/db/cache.go:110-112 | INSERT OR REPLACE: only the row keyed by the path changes; the scan table is unchanged |
| Db.Cache.GetSimilarities | internal/db/cache.go:78-90 | the method answers the fingerprint lookup |
| Db.Cache.PutSimilarities | internal/db/cache.go:92-98 | INSERT OR REPLACE on the scan table; the preview table is unchanged |
| Db.Cache.CalculateFingerprint | internal/db/cache.go:64-76 | the caller's array ends sorted by path and is a permutation of what it held; the result is the hex digest of the paths and mod times in that order |
| Db.PutThenGetPreview | internal/db/cache.go:100-112 | a put followed by a get with the same mod time hits with the stored internal path |
| Db.PutPreviewOthers | internal/db/cache.go:110-112 | a put leaves the lookups of other paths as they were |
| Db.PutPreviewStale | internal/db/cache.go:100-112 | after re-putting a path with a new mod time, a lookup with another mod time misses |
| Db.PutThenGetScan | internal/db/cache.go:78-98 | a put followed by a get returns those groups (last write wins); other fingerprints are unaffected |
| Db.Fingerprint | internal/db/cache.go:70-75 | the fingerprint is two hex characters per digest byte |
| Db.NotLessAntisymmetric | internal/db/cache.go:66-68 | two paths neither less than the other are equal |
| Db.NotLessTransitive | internal/db/cache.go:66-68 | the "not less" order is transitive |
| Db.Swap | internal/db/cache.go:66-68 | swapping two entries keeps the multiset |
| Db.SortByPath | internal/db/cache.go:66-68 | the in-place sort orders the array by path and keeps its multiset |
| Db.Insert | internal/db/cache.go:66-68 | one insertion step extends the sorted prefix by one element and keeps the array's multiset |
| Db.Without | internal/db/cache.go:66-68 | removing one entry removes exactly that element from the multiset |
| Db.SortedTail | internal/db/cache.go:66-68 | the tail of a sorted, distinct-path sequence is sorted and distinct |
| Db.SortedUnique | internal/db/cache.go:66-68 | two path-sorted permutations of distinct-path files are equal |
| Db.SortedHeads | internal/db/cache.go:66-68 | two path-sorted permutations of distinct-path files begin alike |
| Db.DistinctPermutation | internal/db/cache.go:64-76 | a permutation of distinct-path files has distinct paths |
| Db.DistinctWithout | internal/db/cache.go:64-76 | distinct paths after removing one entry, plus a new path for it, give distinct paths |
| Db.FingerprintOrderFree | internal/db/cache.go:64-76 | files with distinct paths give the same fingerprint in any input order |
| Finder.IsMultiVolumeName | cmd/finder/main.go:618-642 | the method returns the reference predicate: `.part` or `.z0` occurs, or the extension is a dot and three digits |
| Finder.IsNumericExt | cmd/finder/main.go:628-639 | the digit loop is true iff the extension is a dot and three ASCII digits |
| Finder.MultiVolumeCaseInsensitive | cmd/finder/main.go:619 | the test does not depend on letter case |
| Finder.ThreeDigitExtension | cmd/finder/main.go:626-639 | any name ending in a three-digit extension is a part |
| Finder.MarkedVolume | cmd/finder/main.go:622-624 | any name containing `.part` or `.z0`, in any case, is a part |
| Finder.HandleCleanup | cmd/finder/main.go:482-571 | the step-by-step assignment of `toDelete`/`reason` yields the reference decision |
| Finder.CleanupOf | cmd/finder/main.go:482-571 | a pair with a volume part is always skipped; an action deletes one of the pair and keeps one of the pair, never the same file when the paths differ, and outside interactive mode names a non-empty target |
| Finder.PartsNeverDeleted | cmd/finder/main.go:484-489 | no file is acted on when either name is a multi-volume part |
| Finder.PreservedIsOther | cmd/finder/main.go:500-559 | the preserved file is always the other member of the pair |
| Finder.OldestRule | cmd/finder/main.go:516-551 | mode "oldest" picks the strictly older file; equal times give no candidate |
| Finder.ContentsByCount | cmd/finder/main.go:526-534 | with both file counts positive and different, mode "contents" picks the smaller count |
| Finder.ContentsBySize | cmd/finder/main.go:536-551 | otherwise it picks the strictly smaller size, and equal sizes give no candidate |
| Finder.ConfirmationRule | cmd/finder/main.go:561-570 | without auto-delete, nothing is acted on unless the answer is "y" in any case |
| Finder.VolumesOfOneSetSkipped | cmd/finder/main.go:389-397 | any two different parts `b.partN<ext>` of one set are never reported, whatever their similarity |
| Finder.ZipVolumesOfOneSetSkipped | cmd/finder/main.go:389-397 | any two different split-ZIP volumes `b.zip.N` of one set are never reported, whatever their similarity |
| Finder.OtherSetsCompared | cmd/finder/main.go:389-397 | volumes of two different sets are reported iff their similarity reaches the threshold |
| Finder.Validate | cmd/finder/main.go:335-348 | accepted iff threshold in [0,100], mode in {all, size, name} and delete mode in {"", oldest, contents}; the threshold check comes first |
| Web.WithoutPath | internal/web/server.go:521-526 | removing a path never lengthens a file list |
| Web.RemoveFile | internal/web/server.go:521-526 | the inner loop returns the files not at the path |
| Web.PruneGroups | internal/web/server.go:519-550 | the outer loop returns the reference pruned groups |
| Web.WithoutPathOrder | internal/web/server.go:521-526 | the remaining files are, in their old order, exactly the files not at the path |
| Web.WithoutPathMembers | internal/web/server.go:521-526 | a file remains iff it was there and is not at the path |
| Web.WithoutAbsentPath | internal/web/server.go:521-526 | removing a path no file has changes nothing |
| Web.PrunedOrder | internal/web/server.go:519-550 | the kept groups are, in order, exactly the old groups with at least 2 files not at the path, each with the path's files removed; each keeps at least 2 files |
| Web.PrunedStep | internal/web/server.go:527-531 | one group's step of the pruning keeps that correspondence |
| Web.PrunedNoPath | internal/web/server.go:519-550 | no kept group contains the deleted path |
| Web.PrunedFixed | internal/web/server.go:519-550 | groups without the path and with at least 2 files are left as they are |
| Web.PrunedIdempotent | internal/web/server.go:519-550 | deleting the same path twice prunes no further |
| Web.FilterGroups | internal/web/server.go:254-262 | the filter keeps only accepted groups that were there, never more |
| Web.FilterGroupsLoop | internal/web/server.go:254-274 | the filter loops return the reference filtered lists |
| Web.FilterGroupsKeeps | internal/web/server.go:254-262 | every accepted group survives the filter |
| Web.MarkedRemoved | internal/web/server.go:254-274 | `/mark-as-good` keeps exactly the groups whose hash differs from the request's |
| Web.Report.constructor | internal/reporter/json.go:10-21 | a report over the given groups with consistent counts |
| Web.Report.Delete | internal/web/server.go:491-554 | a failed removal answers 500 and changes nothing; otherwise TotalFiles drops by exactly 1, SimilarGroups and SizeGroups are pruned, SimilarCount is the new number of similar groups, and VisualGroups are untouched |
| Web.Report.MarkAsGood | internal/web/server.go:229-277 | no files answers 400 and changes nothing; otherwise all three lists lose the groups with the request's hash; counts and TotalFiles stay |
| Web.GetReport | internal/web/server.go:184-227 | idle without a report; otherwise the three lists without the cache's ignored groups, no similar groups when `exclude_similar` is "true", other fields copied |
| Web.NoCacheShowsAll | internal/web/server.go:195 | without a cache every group is shown |
| Web.ContentType | internal/web/server.go:779-805 | the type is `application/octet-stream` iff the lowercased extension is not one of the eleven known |
| Web.ContentTypeCaseInsensitive | internal/web/server.go:780 | the type does not depend on letter case |
| Web.PreviewTypes | internal/web/server.go:779-805 | every image the archive scanner accepts is served as `image/…` and every video as `video/…` |
| Web.Sanitize | internal/web/server.go:395-400 | the key keeps its length, holds only `[A-Za-z0-9_]`, and keeps every letter and digit in place |
| Web.CacheKey | internal/web/server.go:394-400 | the key is the hex of the archive path, `_`, then the sanitised internal path; sanitising it again changes nothing |
| Web.ArchiveTypesAreArchives | internal/web/server.go:336-340 | every path the scanner types as zip, rar or 7z passes the `/preview` archive test |
| Web.IsArchivePath | internal/web/server.go:336-340 | a path accepted as an archive has a dotted extension of three or four characters |

## Left out

- Archive container decoding (`archive/zip`, `rardecode`, `sevenzip`) and the `recover()` wrappers: these are foreign libraries and panic handling. The readers are function parameters of the archive's path and format that return an entry list, a contents map or one entry's contents. The `FindFirst…`/`FindLargest…` image and video functions that return bytes are not modelled.
- Floating point:
  - ratios and scores are exact `real`s; float64 rounding is not modelled;
  - `math.Round` is modelled by `RoundTenth` only up to ±0.05;
  - float32 coordinates, the `boundsEqual` epsilon and `Sscanf` are not modelled: bounds stay uninterpreted;
  - the `%.1f` text of `formatBytes` is not modelled, only its unit choice.
- Text functions:
  - `strings.ToLower` is modelled on ASCII letters; other letters keep their case, so Unicode case mapping is not modelled;
  - `strings.TrimSpace` is modelled in full: `Text.IsSpace` is Go's `unicode.IsSpace`, covering the Latin-1 and Unicode white space characters;
  - `bytes.TrimSpace` in the ASCII STL parser is modelled on the six ASCII white space bytes; multi-byte UTF-8 spaces at the ends of a line are not trimmed.
- Byte and character counts: `jaroSimilarity`, the prefix loop of `jaroWinklerSimilarity` and `getNgrams` index and measure their strings in UTF-8 bytes (internal/similarity/name.go:205-206, 223-224, 248, 271 and 317-323). `Jaro`, `JaroSimilarity`, `PrefixLength`, `CommonPrefix`, `GetNgrams` and `NgramSimilarityOf` work on characters instead, as `levenshteinDistance` does through `[]rune`. The two agree on ASCII names; on names with multi-byte characters the Jaro, prefix and bigram scores can differ from the source's.
- Perceptual hashing (`GeneratePHash`, `GenerateDHash`) is not modelled; Hamming distance is taken as the popcount of XOR over `bv64`.
- Concurrency is not modelled:
  - the worker pool and channel of `FindSimilarNames` are run as sequential jobs in order. Real runs may report the pairs in another order; the set of pairs is the same (`FoundPairs`);
  - `ProcessVisualHashes`, `RunVisual`, `performFullScan` and `RunStep3`, with their progress and semaphores;
  - the server's mutex.
- SQLite, JSON and SHA-256 are not modelled:
  - the tables are maps with INSERT OR REPLACE semantics; table creation in `NewCache` is not modelled;
  - a failed JSON marshal in `PutSimilarities`, which silently skips the write, is not modelled;
  - the hash is an uninterpreted `digest` function.
- Db.Cache.CalculateFingerprint: `sort.Slice` is unstable, so for equal paths the order is not fixed. The model sorts with one particular algorithm, an insertion sort, and proves only order-independence for distinct paths.
- Functions the core calls whose code is not part of this model enter as parameters:
  - `GetVisualHash` enters as a map;
  - `IsGroupIgnored`, `Group.Hash` and `CalculateGroupHash` enter as functions;
  - `PutVisualHash` and `AddIgnoredGroup` are not modelled: the first is called only by the hashing workers, the second is a write to a table this model does not hold.
- `similarity.FindSimilarGroups` is not modelled: its code is not part of this model.
- NameSimilarity.ScoreSymmetric: symmetry of the Jaro part is taken as a precondition and not proved. The greedy, window-bounded matching of `jaroSimilarity` makes its symmetry a fact about the whole match sequence, which this model does not prove; given it, the blended score is proved symmetric, and its other three parts are proved symmetric outright (`ScorePartsSymmetric`).
- `CalculateNameSimilarity` is not modelled separately: it is `CalculateNormalizedSimilarity` applied to the two normalized names.
- The file system, CLI, HTTP and processes are not modelled:
  - `ScanDirectory`, `PrintFileStats`, `ExportJSON`, `PrintSummary`, config loading and saving, `openBrowser`, `main`;
  - `performFileAction` and `deleteFile`;
  - `compareSTLContents`;
  - the rest of `/preview`: file serving, the temp-dir cache and the preview-path cache calls;
  - request-body parsing, with its 400 answers.
  `/delete` receives the outcome of the rename/remove as a boolean.
- The printing and result assembly of `analyzeSameSizeDifferentName` is not modelled: it iterates a Go map in random order. Only its skip rule for parts of one volume set is modelled (`Finder.VolumesOfOneSetSkipped`, `Finder.ZipVolumesOfOneSetSkipped`, `Finder.OtherSetsCompared`).
- Interactive console input enters as the `choice` and `response` strings; the reasons' date and size texts are not modelled.
- A nil report: `/delete` and `/mark-as-good` dereference it and would panic. The model requires a report object; `GetReport` models the nil case of `/report`.
- Web.Report.MarkAsGood: the counts are not updated, as in the source.
- `CalculateHash` in the archive package is not modelled: nothing in the core uses it.
- Two call sites do not match the definitions shown: `CalculateNameSimilarity` is called with three arguments, and `NewServer` with another parameter list. The model follows the definitions.
