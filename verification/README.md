# gvm: segmented download and release-tag listing, in Dafny

gvm is a Go version manager. This project models two parts of it.

- **The segmented downloader** (`command/install.go`). A `FileDownloader` first
  sends a HEAD request. It learns from it whether the server accepts byte ranges
  and how large the archive is. It splits the byte range into `totalPart`
  inclusive segments and fetches each one with a `Range: bytes=From-To` GET. It
  keeps a payload only when the status is at most 299 and the length is exactly
  `To - From + 1`. Finally it concatenates the per-slot payloads in slot order and
  compares the total length with the probed size. The archive name comes from
  `goPkgName`.
- **The tag listing** (`command/list.go`). It keeps the remote tags that start
  with `go1` and that `^go(.*)[a-zA-Z]` does not match. It sorts them by
  comparing the dot-separated numbers after `go`, with `strconv.Atoi` reading
  each number and a shorter prefix sorting first. It also reads the current
  version from the last path element of the GOROOT link.

The model is purely functional. HTTP replies are parameters. The HEAD reply is
one `Exchange`. The server's answers to ranged GETs form a function from the
Range header value to an `Exchange`. A goroutine per segment becomes a fold over
the jobs. `Segments.FetchOrderIrrelevant` shows that the fold's order does not
change the slots, because each job writes only its own slot.

Go library behaviour the core relies on is modelled in `GoText`:
`strings.HasPrefix`, `strings.TrimPrefix`, `strings.Split` with a one-character
separator, `strconv.Atoi` and `%v` integer formatting. `Planner.GoQuo` models
Go's division, which truncates toward zero.

Where this code behaves in a way a reader might not expect, the model follows
the code:

- `Run` merges and writes the file even after a segment failed. The segment
  errors are only printed. `Run`'s result is the size comparison made by
  `mergeFileParts`.
- Every non-final segment is `eachSize + 1` bytes wide, because `To = From +
  eachSize` is inclusive. For 1000 bytes in 4 parts this gives [0,250],
  [251,501], [502,752] and [753,999].
- Without range support, the probe reports size 0. The single job is then
  [0, -1], sent as `bytes=0--1`. Only an empty payload passes the length check,
  and the merged total 0 equals the size 0. So `Run` reports success with an
  empty file, whatever the server sends.
- A non-2xx segment status gives a generic status error. No distinct
  "not found" error is raised.

## Model

| member | source | states |
|---|---|---|
| Probe.HasAcceptRanges | command/install.go:183-205 | A failed HEAD gives (0, false, error). A status above 299 gives (0, false, status error). Ranges are supported exactly when a 2xx reply has Accept-Ranges equal to "bytes". Otherwise a 2xx reply gives (0, false, no error). With ranges, the size is Atoi of Content-Length. It is 0 together with an error exactly when Atoi rejects the text. |
| Probe.ProbeReadsAdvertisedSize | command/install.go:198-204 | A 2xx reply with `Accept-Ranges: bytes` and a Content-Length holding the decimal form of n probes as size n, with ranges and without error. |
| GoText.AtoiFormatInt | command/install.go:203 | Atoi reads back every integer that `%v` formats. The text round trip of Content-Length and of the Range bounds is lossless. |
| GoText.FormatInt | command/install.go:272 | `%v` of an int is non-empty. It starts with '-' exactly when the value is negative, and the rest is all decimal digits. |
| GoText.SplitJoin | command/list.go:168 | Splitting the join of separator-free pieces gives back exactly those pieces. |
| GoText.JoinSplit | command/list.go:168 | Joining the pieces of a split gives back the split string. |
| GoText.SplitSnoc | command/list.go:127-129 | Appending the separator and a separator-free piece to a string appends exactly that piece to its split. |
| GoText.LastPieceIsSuffix | command/list.go:127-129 | The last piece of a split is a separator-free suffix of the string. A separator precedes it when the string has one. Otherwise it is the whole string. |
| Planner.GoQuo | command/install.go:224 | Integer division truncates toward zero, for negative dividends too. The result q satisfies q*b <= a < q*b + b for a >= 0, and q*b - b < a <= q*b for a < 0. |
| Planner.Plan | command/install.go:223-239 | There are exactly `parts` jobs, indexed 0 to parts-1, with empty data. Job 0 starts at 0. Each later job starts right after the previous one ends. Every non-final job is eachSize+1 wide. The last job ends at size-1. |
| Planner.PlanCoversSize | command/install.go:223-239 | The widths of the planned jobs add up to the probed size, for every size and part count. |
| Planner.PlanStarts | command/install.go:228-234 | Job k starts at byte k*(eachSize+1). |
| Planner.PlanLastWidth | command/install.go:235-238 | The last job is size-(parts-1)*(eachSize+1) wide. It is inverted (from > to) exactly when (parts-1)*(eachSize+1) >= size. |
| Planner.PlanFallback | command/install.go:218-221 | Without range support (size 0, one part), the plan is the single job [0, -1]. |
| Planner.PlanThousandInFour | command/install.go:223-239 | 1000 bytes in 4 parts are planned as [0,250], [251,501], [502,752], [753,999]. |
| Planner.PlanSmallSizeInvertsLast | command/install.go:233-238 | With fewer bytes than parts, the last job is [parts-1, size-1] and starts past its own end. For example, 5 bytes in 10 parts end with [9,4]. |
| Segments.RangeHeaderDenotesRange | command/install.go:272 | The `bytes=%v-%v` header of a job parses back to exactly that job's (From, To), negative bounds included. |
| Segments.FallbackRangeHeader | command/install.go:272 | The fallback job [0,-1] is requested with the header `bytes=0--1`. |
| Segments.DownloadPart | command/install.go:267-293 | The segment succeeds exactly when the reply arrived, its status is at most 299, its body was read and it is To-From+1 long. Then it stores the job with that payload in slot Index and changes no other slot. On any error all slots are unchanged. A status above 299 gives the status error. |
| Segments.FetchAll | command/install.go:241-257 | After all jobs ran, the slot count is unchanged. No error was collected exactly when every job's reply was accepted. Slots no job addresses are unchanged. |
| Segments.FetchAllSlots | command/install.go:244-255 | With distinct in-range indices, each slot holds its job's payload when that job was accepted. Otherwise it keeps its old value. |
| Segments.FetchOrderIrrelevant | command/install.go:244-255 | Any permutation of jobs with distinct in-range indices also has distinct in-range indices and yields the same slots, so goroutine scheduling cannot change the merged file. |
| Merge.MergeFileParts | command/install.go:326-335 | The file is as long as all slot payloads together. Slot i's payload sits at the sum of the earlier slots' lengths. The result is success exactly when the total equals the probed size, and the error otherwise is "incomplete". |
| Merge.TotalLengthUpdate | command/install.go:290 | Storing a slot changes the total length by the new payload's length minus the old one's. |
| Downloader.NewFileDownloader | command/install.go:171-180 | Size 0, the given url, directory, file name and part count, and totalPart empty slots. |
| Downloader.PartCount | command/install.go:219-221 | Without range support one part is used. Otherwise the configured count is kept. |
| Downloader.RunJobs | command/install.go:218-239 | The jobs are the plan for the probed size and part count. Their indices are distinct and address existing slots. |
| Downloader.Run | command/install.go:208-264 | A probe error is returned before anything is fetched or written, with no segment errors. Otherwise the file is always written, even after segment errors. The url, output directory and file name never change; the size and part count are updated and the slot count is kept. The segment errors are empty exactly when every job's answer was accepted, and they do not affect the verdict: success exactly when the file length equals the probed size, and "incomplete" otherwise. |
| Downloader.RunSlots | command/install.go:244-255 | After a successful probe, each accepted job's slot holds the job with its payload, and every slot no accepted job addresses keeps its old value. |
| Downloader.FetchTotal | command/install.go:241-257 | Fetching into empty slots adds exactly the width of the accepted jobs to the total payload length. |
| Downloader.RunSucceedsIffNothingLost | command/install.go:258-263 | On a fresh downloader, Run succeeds exactly when the rejected jobs have total width 0. |
| Downloader.RunFailsOnLostSegment | command/install.go:286-288 | If no planned job has negative width, one rejected job of positive width makes Run fail with "incomplete". |
| Downloader.RunAllAccepted | command/install.go:241-263 | When every segment is accepted, Run succeeds and each payload lies in the file at exactly the byte range [From, To] of its job. |
| Downloader.RunFallbackPlan | command/install.go:218-224 | Without range support, Run plans the single job [0,-1] and requests it as `bytes=0--1`. |
| Downloader.RunFallbackWritesEmptyFile | command/install.go:258-263 | Without range support, Run on a fresh downloader reports success with an empty file, whatever the server answers. |
| Downloader.RunMergesDespiteSegmentError | command/install.go:241-263 | Without range support, when the answer to `bytes=0--1` is rejected, Run on a fresh downloader records a segment error and still reports success with an empty file. |
| Downloader.GoPkgName | command/install.go:66-70 | The archive name reads back as `go`, the version, `.`, GOOS, `-`, GOARCH and `.tar.gz`, at the positions their lengths give. Its length is the parts' lengths plus 11. |
| Downloader.GoPkgNameInjective | command/install.go:66-70 | On one platform, different versions get different archive names. |
| TagOrder.StrToSlice | command/list.go:167-169 | There is at least one piece and no piece contains '.'. Joined with '.', the pieces give the tag without its leading "go". |
| TagOrder.TagsLess | command/list.go:138-161 | The index loop returns exactly the lexicographic order of the Atoi values of the pieces. A proper prefix sorts first, and a piece Atoi rejects counts as 0. |
| TagOrder.LexLessFirstDifference | command/list.go:141-160 | "Less" holds exactly when either the first differing number is smaller, or the first list is a proper prefix of the second. |
| TagOrder.Swap | command/list.go:163-165 | Positions i and j trade their tags, and every other position keeps its tag. |
| TagOrder.LessIsStrictWeakOrder | command/list.go:138-161 | Less is irreflexive, asymmetric and transitive. Two tags are incomparable exactly when their number lists are equal. |
| TagOrder.LessSortable | command/list.go:112 | Less meets what sort.Sort demands of it: asymmetry and transitivity over all tags. |
| TagOrder.LessComparesNumbers | command/list.go:149-157 | Pieces compare as numbers, not text: go1.9 sorts before go1.10. |
| TagOrder.ComponentsExtend | command/list.go:167-169 | Appending "." + piece to a "go" tag appends that piece's Atoi value to its numbers. |
| TagOrder.LessShorterPrefixFirst | command/list.go:141-147 | A "go" tag sorts before, and never after, the same tag with one more dot-free piece (go1.20 before go1.20.0). |
| TagOrder.LessLastPiece | command/list.go:149-157 | Two "go" tags that differ only in their last piece compare as the Atoi values of that piece. |
| TagOrder.LessUnparsedIsZero | command/list.go:149-150 | A piece Atoi rejects compares as 0: go1.x and go1.0 are incomparable. |
| TagOrder.SortTags | command/list.go:112 | The result is a permutation of the tags. No tag is followed by one it is greater than. |
| Sorting.SortBy | command/list.go:112 | For an asymmetric, transitive order, the result is a permutation in which no later element is less than an earlier one. |
| TagFilter.MatchVersionReg | command/list.go:98 | The scan matches exactly when `^go(.*)[a-zA-Z]` matches: a "go" prefix followed by an ASCII letter, with no newline in between. |
| TagFilter.KeepTagMeaning | command/list.go:108-110 | For a newline-free name, the tag is kept exactly when it starts with "go1" and has no ASCII letter after the "go". |
| TagFilter.FilterTags | command/list.go:101-111 | Every kept name passes the test and comes from a tag reference. There are at most as many names as references. |
| TagFilter.FilterTagsMembership | command/list.go:101-111 | A name is kept exactly when some tag reference has it and it passes the test. |
| TagFilter.FilterTagsAppend | command/list.go:101-111 | Filtering a concatenated listing concatenates the filtered parts, so listing order is kept. |
| TagFilter.ListRemoteTags | command/list.go:92-112 | The listed tags are a permutation of the kept tags, in the tag order. A name is listed exactly when a tag reference has it and it passes the test. |
| TagFilter.KeepsReleases | command/list.go:108-110 | go1.21.0 is kept. |
| TagFilter.DropsPrereleases | command/list.go:108-110 | go1.21rc1 and go1.9beta2 are dropped. |
| TagFilter.DropsOtherTags | command/list.go:108 | Tags without the "go1" prefix, such as weekly.2009-11-06 and release.r60, are dropped. |
| CurrentVersion.GetCurrentGoVersion | command/list.go:123-130 | An unreadable link gives "". Otherwise the result is the slash-free suffix after the target's last '/'. With no '/' it is the whole target. |
| CurrentVersion.CurrentVersionOfLink | command/list.go:127-129 | For the target `<root>/go<version>` that `gvm use` creates, the result is exactly `go<version>`. |

## Left out

- Building requests, the User-Agent header, the HTTP client and the proxy transport: replies are parameters. A request that cannot be built counts as a failed exchange.
- Goroutines, the WaitGroup and the error channel: segments are a sequential fold, and `Segments.FetchOrderIrrelevant` covers scheduling order. Which segment error is printed (the first one the channel yields) is not modelled, because it is only printed.
- File-system effects: removing a stale output file, `MkdirAll`, `os.Create`, the writes and `os.Stat`/`os.Readlink` themselves. The merged file is returned as a byte sequence, and the link target is a parameter.
- The SHA-256 computed in `mergeFileParts`: it is never read.
- Integer width: Go's `int` is 64-bit. Sizes, offsets and Atoi values are unbounded here, so Atoi's out-of-range error and overflow in `From + eachSize` are not modelled.
- Downloader.Run: requires 1 <= totalPart <= |doneFilePart|. With totalPart 0 the Go code divides by zero, and with more jobs than slots it indexes out of range. Both are panics, which are not modelled.
- TagOrder.SortTags: sort.Sort's own algorithm is not modelled. An insertion sort with the same contract (permutation, no inversion) stands in for it, and the order among tags with equal numbers is not fixed, just as sort.Sort does not fix it.
- TagFilter: the remote listing through go-git is a parameter, the sequence of references with their tag flag and short name. The regular expression is modelled only for the one pattern used.
- The rest of the command: cobra wiring, printing, the download URL, archive extraction, checksums, `use`, `uninstall` and the paths in `var.go`.
