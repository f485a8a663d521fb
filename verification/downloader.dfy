/**
 The `FileDownloader` coordinator: construction, `Run` (probe, plan, one
 `downloadPart` per job, merge), and the archive file name `goPkgName`.
 `Run` merges even after a segment failed: the segment errors are only
 printed, and the result is the merge's verdict.
 */
module Downloader {
  import opened Common
  import opened GoText
  import opened Http
  import opened Probe
  import opened Planner
  import opened Segments
  import opened Merge

  datatype FileDownloader = FileDownloader(
    fileSize: int,
    url: string,
    outputFileName: string,
    totalPart: int,
    outputDir: string,
    doneFilePart: seq<FilePart>)

  /** The zero value of a Go `filePart`. */
  const EmptyPart := FilePart(0, 0, 0, [])

  function NewFileDownloader(url: string, outputDir: string, outputFileName: string, totalPart: nat): (d: FileDownloader)
    ensures d.fileSize == 0 && d.totalPart == totalPart
    ensures d.url == url && d.outputDir == outputDir && d.outputFileName == outputFileName
    ensures |d.doneFilePart| == totalPart
    ensures forall k :: 0 <= k < totalPart ==> d.doneFilePart[k].data == []
  {
    FileDownloader(0, url, outputFileName, totalPart, outputDir, seq(totalPart, _ => EmptyPart))
  }

  /** The part count `Run` plans with: the configured one, or 1 without range support. */
  function PartCount(d: FileDownloader, probe: ProbeResult): (n: nat)
    requires d.totalPart >= 1
    ensures 1 <= n <= d.totalPart
    ensures probe.rangeSupported ==> n == d.totalPart
    ensures !probe.rangeSupported ==> n == 1
  {
    if probe.rangeSupported then d.totalPart else 1
  }

  /** The jobs `Run` plans after a successful probe. */
  function RunJobs(d: FileDownloader, head: Exchange): (jobs: seq<FilePart>)
    requires 1 <= d.totalPart <= |d.doneFilePart|
    requires HasAcceptRanges(head).err.None?
    ensures jobs == Plan(HasAcceptRanges(head).size, PartCount(d, HasAcceptRanges(head)))
    ensures IndicesInRange(jobs, |d.doneFilePart|)
    ensures DistinctIndices(jobs)
  {
    var probe := HasAcceptRanges(head);
    var jobs := Plan(probe.size, PartCount(d, probe));
    assert forall j :: j in jobs ==> 0 <= j.index < |jobs| by {
      forall j | j in jobs ensures 0 <= j.index < |jobs| {
        var k :| 0 <= k < |jobs| && jobs[k] == j;
      }
    }
    jobs
  }

  /** The downloader after `Run`, the merged file (absent when the probe failed),
      `Run`'s error, and the segment errors it only prints. */
  datatype RunResult = RunResult(state: FileDownloader, file: Option<seq<byte>>, err: Option<Error>, partErrors: seq<Error>)

  function Run(d: FileDownloader, head: Exchange, serve: Server): (r: RunResult)
    requires 1 <= d.totalPart <= |d.doneFilePart|
    // the address and the output location are never changed
    ensures r.state.url == d.url && r.state.outputDir == d.outputDir && r.state.outputFileName == d.outputFileName
    // a probe error is returned before anything is fetched or written
    ensures HasAcceptRanges(head).err.Some? ==>
              r.file.None? && r.err == HasAcceptRanges(head).err && r.state == d && r.partErrors == []
    // otherwise the file is always written, whatever the segments reported,
    // and the verdict is the size comparison alone
    ensures HasAcceptRanges(head).err.None? ==>
              var probe := HasAcceptRanges(head);
              && r.file.Some?
              && r.state.fileSize == probe.size
              && r.state.totalPart == (if probe.rangeSupported then d.totalPart else 1)
              && |r.state.doneFilePart| == |d.doneFilePart|
              && (r.err.None? <==> |r.file.value| == probe.size)
              && (r.err.Some? ==> r.err == Some(Incomplete))
    // the segment errors are collected apart from the verdict: there are none
    // exactly when every job's answer was accepted
    ensures HasAcceptRanges(head).err.None? ==>
              (r.partErrors == [] <==>
                 forall j :: j in RunJobs(d, head) ==> Accepts(j, serve(RangeHeader(j))))
  {
    var probe := HasAcceptRanges(head);
    if probe.err.Some? then RunResult(d, None, probe.err, [])
    else
      var jobs := RunJobs(d, head);
      var fetched := FetchAll(d.doneFilePart, jobs, serve);
      var state := d.(fileSize := probe.size, totalPart := PartCount(d, probe), doneFilePart := fetched.slots);
      var merged := MergeFileParts(state.doneFilePart, state.fileSize);
      RunResult(state, Some(merged.file), merged.err, fetched.errs)
  }

  /** Total width of the jobs whose answer `downloadPart` accepts. */
  function AcceptedWidth(jobs: seq<FilePart>, serve: Server): int
  {
    if |jobs| == 0 then 0
    else (if Accepts(jobs[0], serve(RangeHeader(jobs[0]))) then Width(jobs[0]) else 0)
         + AcceptedWidth(jobs[1..], serve)
  }

  /** Total width of the jobs whose answer is rejected: the bytes the file will miss. */
  function LostWidth(jobs: seq<FilePart>, serve: Server): int
  {
    if |jobs| == 0 then 0
    else (if Accepts(jobs[0], serve(RangeHeader(jobs[0]))) then 0 else Width(jobs[0]))
         + LostWidth(jobs[1..], serve)
  }

  lemma {:induction false} SumWidthsCons(jobs: seq<FilePart>)
    requires |jobs| > 0
    ensures SumWidths(jobs) == Width(jobs[0]) + SumWidths(jobs[1..])
  {
    var n := |jobs|;
    if n > 1 {
      SumWidthsCons(jobs[..n - 1]);
      assert jobs[..n - 1][1..] == jobs[1..][..n - 2];
    }
  }

  /** Every job is either accepted or lost. */
  lemma {:induction false} AcceptedPlusLost(jobs: seq<FilePart>, serve: Server)
    ensures AcceptedWidth(jobs, serve) + LostWidth(jobs, serve) == SumWidths(jobs)
  {
    if |jobs| > 0 {
      SumWidthsCons(jobs);
      AcceptedPlusLost(jobs[1..], serve);
    }
  }

  /** Starting from slots the jobs have not written yet, the fan-out adds exactly
      the accepted widths to the byte total. */
  lemma {:induction false} FetchTotal(slots: seq<FilePart>, jobs: seq<FilePart>, serve: Server)
    requires IndicesInRange(jobs, |slots|)
    requires DistinctIndices(jobs)
    requires forall j :: j in jobs ==> slots[j.index].data == []
    ensures TotalLength(FetchAll(slots, jobs, serve).slots) == TotalLength(slots) + AcceptedWidth(jobs, serve)
    decreases |jobs|
  {
    if |jobs| > 0 {
      var step := DownloadPart(slots, jobs[0], serve);
      var tail := jobs[1..];
      DistinctTail(jobs);
      if step.err.None? {
        TotalLengthUpdate(slots, jobs[0].index, step.slots[jobs[0].index]);
        assert step.slots == slots[jobs[0].index := step.slots[jobs[0].index]];
      }
      FetchTotal(step.slots, tail, serve);
    }
  }

  /** `Run` on a fresh downloader succeeds exactly when no planned byte was lost:
      the rejected jobs have total width 0. */
  lemma RunSucceedsIffNothingLost(url: string, dir: string, name: string, n: nat, head: Exchange, serve: Server)
    requires n >= 1
    requires HasAcceptRanges(head).err.None?
    ensures var d := NewFileDownloader(url, dir, name, n);
            Run(d, head, serve).err.None? <==> LostWidth(RunJobs(d, head), serve) == 0
  {
    var d := NewFileDownloader(url, dir, name, n);
    RunVerdictIsTotal(d, head, serve);
    FreshFetchTotal(url, dir, name, n, head, serve);
  }

  /** After a successful probe, `Run` succeeds exactly when the fetched slots
      hold as many bytes as the probed size. */
  lemma RunVerdictIsTotal(d: FileDownloader, head: Exchange, serve: Server)
    requires 1 <= d.totalPart <= |d.doneFilePart|
    requires HasAcceptRanges(head).err.None?
    ensures Run(d, head, serve).err.None? <==>
              TotalLength(FetchedSlots(d, head, serve)) == HasAcceptRanges(head).size
  {
    RunIsMerge(d, head, serve);
  }

  /** On a fresh downloader, the fetched bytes and the lost widths add up to the probed size. */
  lemma FreshFetchTotal(url: string, dir: string, name: string, n: nat, head: Exchange, serve: Server)
    requires n >= 1
    requires HasAcceptRanges(head).err.None?
    ensures var d := NewFileDownloader(url, dir, name, n);
            TotalLength(FetchedSlots(d, head, serve)) + LostWidth(RunJobs(d, head), serve)
              == HasAcceptRanges(head).size
  {
    var d := NewFileDownloader(url, dir, name, n);
    var probe := HasAcceptRanges(head);
    var jobs := RunJobs(d, head);
    EmptyTailAddsNothing(d.doneFilePart, 0);
    FetchTotal(d.doneFilePart, jobs, serve);
    AcceptedPlusLost(jobs, serve);
    PlanCoversSize(probe.size, PartCount(d, probe));
  }

  /** The tail of a list of jobs without negative widths has none either. */
  lemma NonNegativeTail(jobs: seq<FilePart>)
    requires |jobs| > 0
    requires NoNegativeWidth(jobs)
    ensures Width(jobs[0]) >= 0
    ensures NoNegativeWidth(jobs[1..])
  {
    var tail := jobs[1..];
    forall i | 0 <= i < |tail| ensures Width(tail[i]) >= 0 {
      assert tail[i] == jobs[i + 1];
    }
  }

  /** The lost width of a list is the first job's loss plus the tail's. */
  lemma LostWidthCons(jobs: seq<FilePart>, serve: Server)
    requires |jobs| > 0
    ensures Accepts(jobs[0], serve(RangeHeader(jobs[0]))) ==>
              LostWidth(jobs, serve) == LostWidth(jobs[1..], serve)
    ensures !Accepts(jobs[0], serve(RangeHeader(jobs[0]))) ==>
              LostWidth(jobs, serve) == Width(jobs[0]) + LostWidth(jobs[1..], serve)
  {
  }

  /** The lost width is at least the width of any one rejected job, when no job is negative. */
  lemma {:induction false} LostWidthBound(jobs: seq<FilePart>, serve: Server, k: nat)
    requires k < |jobs|
    requires NoNegativeWidth(jobs)
    requires !Accepts(jobs[k], serve(RangeHeader(jobs[k])))
    ensures LostWidth(jobs, serve) >= Width(jobs[k])
  {
    var front, back := jobs[..k], jobs[k..];
    assert jobs == front + back;
    LostWidthAppend(front, back, serve);
    NonNegativePieces(jobs, k);
    LostWidthNonNegative(front, serve);
    LostWidthNonNegative(back[1..], serve);
    LostWidthCons(back, serve);
  }

  /** No job of the list has a negative width. */
  ghost predicate NoNegativeWidth(jobs: seq<FilePart>)
  {
    forall i :: 0 <= i < |jobs| ==> Width(jobs[i]) >= 0
  }

  /** The pieces of a list of jobs without negative widths have none either. */
  lemma NonNegativePieces(jobs: seq<FilePart>, k: nat)
    requires k < |jobs|
    requires NoNegativeWidth(jobs)
    ensures NoNegativeWidth(jobs[..k]) && NoNegativeWidth(jobs[k + 1..])
    ensures jobs[k..][1..] == jobs[k + 1..] && jobs[k..][0] == jobs[k]
  {
    var front, rest := jobs[..k], jobs[k + 1..];
    forall i | 0 <= i < |front| ensures Width(front[i]) >= 0 {
      assert front[i] == jobs[i];
    }
    forall i | 0 <= i < |rest| ensures Width(rest[i]) >= 0 {
      assert rest[i] == jobs[k + 1 + i];
    }
  }

  /** The lost width of two lists of jobs run one after the other is the sum of theirs. */
  lemma {:induction false} LostWidthAppend(a: seq<FilePart>, b: seq<FilePart>, serve: Server)
    ensures LostWidth(a + b, serve) == LostWidth(a, serve) + LostWidth(b, serve)
  {
    if |a| > 0 {
      assert (a + b)[1..] == a[1..] + b;
      assert (a + b)[0] == a[0];
      LostWidthCons(a + b, serve);
      LostWidthCons(a, serve);
      LostWidthAppend(a[1..], b, serve);
    } else {
      assert a + b == b;
    }
  }

  lemma {:induction false} LostWidthNonNegative(jobs: seq<FilePart>, serve: Server)
    requires NoNegativeWidth(jobs)
    ensures LostWidth(jobs, serve) >= 0
  {
    if |jobs| > 0 {
      NonNegativeTail(jobs);
      LostWidthCons(jobs, serve);
      LostWidthNonNegative(jobs[1..], serve);
    }
  }

  /** When no planned job has a negative width, a rejected job of positive width
      makes `Run` fail with the incomplete-file error. */
  lemma RunFailsOnLostSegment(url: string, dir: string, name: string, n: nat, head: Exchange, serve: Server, k: nat)
    requires n >= 1
    requires HasAcceptRanges(head).err.None?
    requires var jobs := RunJobs(NewFileDownloader(url, dir, name, n), head);
             && (forall i :: 0 <= i < |jobs| ==> Width(jobs[i]) >= 0)
             && k < |jobs| && Width(jobs[k]) > 0
             && !Accepts(jobs[k], serve(RangeHeader(jobs[k])))
    ensures Run(NewFileDownloader(url, dir, name, n), head, serve).err == Some(Incomplete)
  {
    var d := NewFileDownloader(url, dir, name, n);
    LostWidthBound(RunJobs(d, head), serve, k);
    RunSucceedsIffNothingLost(url, dir, name, n, head, serve);
  }

  /** The byte total of the first slots equals the widths of the first jobs when
      each slot holds its job's payload. */
  lemma {:induction false} PrefixTotals(slots: seq<FilePart>, jobs: seq<FilePart>, i: nat)
    requires i <= |jobs| && i <= |slots|
    requires forall m :: 0 <= m < i ==> |slots[m].data| == Width(jobs[m])
    ensures TotalLength(slots[..i]) == SumWidths(jobs[..i])
  {
    if i > 0 {
      PrefixTotals(slots, jobs, i - 1);
      assert slots[..i][..i - 1] == slots[..i - 1];
      assert jobs[..i][..i - 1] == jobs[..i - 1];
    }
  }

  /** The slots `Run` hands to the merge after a successful probe. */
  function FetchedSlots(d: FileDownloader, head: Exchange, serve: Server): seq<FilePart>
    requires 1 <= d.totalPart <= |d.doneFilePart|
    requires HasAcceptRanges(head).err.None?
  {
    FetchAll(d.doneFilePart, RunJobs(d, head), serve).slots
  }

  /** After a successful probe, each accepted job's slot holds its payload and
      every slot no accepted job addresses keeps its value. */
  lemma RunSlots(d: FileDownloader, head: Exchange, serve: Server)
    requires 1 <= d.totalPart <= |d.doneFilePart|
    requires HasAcceptRanges(head).err.None?
    ensures var s := Run(d, head, serve).state.doneFilePart;
            && (forall j :: j in RunJobs(d, head) && Accepts(j, serve(RangeHeader(j))) ==>
                  s[j.index] == j.(data := Payload(serve(RangeHeader(j)))))
            && (forall k :: 0 <= k < |d.doneFilePart| && !Written(RunJobs(d, head), serve, k) ==>
                  s[k] == d.doneFilePart[k])
  {
    FetchAllSlots(d.doneFilePart, RunJobs(d, head), serve);
  }

  /** After a successful probe, `Run` is the merge of the fetched slots against the probed size. */
  lemma RunIsMerge(d: FileDownloader, head: Exchange, serve: Server)
    requires 1 <= d.totalPart <= |d.doneFilePart|
    requires HasAcceptRanges(head).err.None?
    ensures var merged := MergeFileParts(FetchedSlots(d, head, serve), HasAcceptRanges(head).size);
            && Run(d, head, serve).file == Some(merged.file)
            && Run(d, head, serve).err == merged.err
  {
  }

  /** When every job of a contiguous plan starting at 0 is accepted, slot k holds
      job k's payload and begins in the merged file at job k's start. */
  lemma FetchPlacement(slots: seq<FilePart>, jobs: seq<FilePart>, serve: Server)
    requires |jobs| <= |slots|
    requires forall k :: 0 <= k < |jobs| ==> jobs[k].index == k
    requires Contiguous(jobs)
    requires |jobs| > 0 ==> jobs[0].from == 0
    requires forall j :: j in jobs ==> Accepts(j, serve(RangeHeader(j)))
    ensures IndicesInRange(jobs, |slots|)
    ensures var s := FetchAll(slots, jobs, serve).slots;
            forall k :: 0 <= k < |jobs| ==>
              && s[k] == jobs[k].(data := Payload(serve(RangeHeader(jobs[k]))))
              && Offset(s, k) == jobs[k].from
  {
    assert IndicesInRange(jobs, |slots|) by {
      forall j | j in jobs ensures 0 <= j.index < |slots| {
        var k :| 0 <= k < |jobs| && jobs[k] == j;
      }
    }
    FetchAllSlots(slots, jobs, serve);
    var s := FetchAll(slots, jobs, serve).slots;
    forall k | 0 <= k < |jobs|
      ensures s[k] == jobs[k].(data := Payload(serve(RangeHeader(jobs[k]))))
      ensures |s[k].data| == Width(jobs[k])
    {
      assert jobs[k] in jobs;
    }
    OffsetsAtStarts(s, jobs);
  }

  /** Slots as long as the jobs of a contiguous plan starting at 0 begin, in the
      merged file, where the jobs start. */
  lemma OffsetsAtStarts(s: seq<FilePart>, jobs: seq<FilePart>)
    requires |jobs| <= |s|
    requires Contiguous(jobs)
    requires |jobs| > 0 ==> jobs[0].from == 0
    requires forall m :: 0 <= m < |jobs| ==> |s[m].data| == Width(jobs[m])
    ensures forall k :: 0 <= k < |jobs| ==> Offset(s, k) == jobs[k].from
  {
    forall k | 0 <= k < |jobs| ensures Offset(s, k) == jobs[k].from {
      PrefixTotals(s, jobs, k);
      if k > 0 {
        PrefixWidthsTelescope(jobs, k);
      }
    }
  }

  /** Each job's payload sits in the file at exactly the job's byte range [From, To]. */
  ghost predicate PayloadsPlaced(file: seq<byte>, jobs: seq<FilePart>, serve: Server)
  {
    forall k :: 0 <= k < |jobs| ==>
      && 0 <= jobs[k].from <= jobs[k].to + 1 <= |file|
      && file[jobs[k].from..jobs[k].to + 1] == Payload(serve(RangeHeader(jobs[k])))
  }

  /** A slot whose payload spans [from, to] and starts at offset `from` lies in
      the merged file at exactly [from, to]. */
  lemma SlotInFile(s: seq<FilePart>, size: int, k: nat, from: int, to: int, payload: seq<byte>)
    requires k < |s|
    requires s[k].data == payload && |payload| == to - from + 1
    requires Offset(s, k) == from
    ensures var file := MergeFileParts(s, size).file;
            0 <= from <= to + 1 <= |file| && file[from..to + 1] == payload
  {
  }

  /** Merging slots that hold accepted payloads at the jobs' starts places every payload. */
  lemma MergePlacesPayloads(s: seq<FilePart>, jobs: seq<FilePart>, serve: Server, size: int)
    requires |jobs| <= |s|
    requires forall j :: j in jobs ==> Accepts(j, serve(RangeHeader(j)))
    requires forall k :: 0 <= k < |jobs| ==>
               && s[k] == jobs[k].(data := Payload(serve(RangeHeader(jobs[k]))))
               && Offset(s, k) == jobs[k].from
    ensures PayloadsPlaced(MergeFileParts(s, size).file, jobs, serve)
  {
    var file := MergeFileParts(s, size).file;
    forall k | 0 <= k < |jobs|
      ensures 0 <= jobs[k].from <= jobs[k].to + 1 <= |file|
      ensures file[jobs[k].from..jobs[k].to + 1] == Payload(serve(RangeHeader(jobs[k])))
    {
      assert jobs[k] in jobs;
      SlotInFile(s, size, k, jobs[k].from, jobs[k].to, Payload(serve(RangeHeader(jobs[k]))));
    }
  }

  /** When every segment is accepted, `Run` on a fresh downloader succeeds and
      each payload lands in the file at exactly its byte range [From, To]. */
  lemma RunAllAccepted(url: string, dir: string, name: string, n: nat, head: Exchange, serve: Server)
    requires n >= 1
    requires HasAcceptRanges(head).err.None?
    requires var jobs := RunJobs(NewFileDownloader(url, dir, name, n), head);
             forall j :: j in jobs ==> Accepts(j, serve(RangeHeader(j)))
    ensures var d := NewFileDownloader(url, dir, name, n);
            var r := Run(d, head, serve);
            && r.err.None?
            && r.file.Some?
            && PayloadsPlaced(r.file.value, RunJobs(d, head), serve)
  {
    var d := NewFileDownloader(url, dir, name, n);
    var jobs := RunJobs(d, head);
    AllAcceptedLosesNothing(jobs, serve);
    RunSucceedsIffNothingLost(url, dir, name, n, head, serve);
    RunIsMerge(d, head, serve);
    FetchPlacement(d.doneFilePart, jobs, serve);
    MergePlacesPayloads(FetchedSlots(d, head, serve), jobs, serve, HasAcceptRanges(head).size);
  }

  lemma {:induction false} AllAcceptedLosesNothing(jobs: seq<FilePart>, serve: Server)
    requires forall j :: j in jobs ==> Accepts(j, serve(RangeHeader(j)))
    ensures LostWidth(jobs, serve) == 0
  {
    if |jobs| > 0 {
      assert jobs[0] in jobs;
      assert forall j :: j in jobs[1..] ==> j in jobs;
      AllAcceptedLosesNothing(jobs[1..], serve);
    }
  }

  /** Fetching the job [0, -1] into empty slots leaves every slot empty: only an
      empty payload has the required width 0. */
  lemma FallbackFetchLeavesSlotsEmpty(slots: seq<FilePart>, serve: Server)
    requires |slots| >= 1
    requires forall k :: 0 <= k < |slots| ==> slots[k].data == []
    ensures IndicesInRange([FilePart(0, 0, -1, [])], |slots|)
    ensures var s := FetchAll(slots, [FilePart(0, 0, -1, [])], serve).slots;
            forall k :: 0 <= k < |s| ==> s[k].data == []
  {
    var job := FilePart(0, 0, -1, []);
    var step := DownloadPart(slots, job, serve);
    assert [job][1..] == [];
    assert FetchAll(slots, [job], serve).slots == step.slots;
  }

  /** Without range support `Run` plans the single job [0, -1] and requests it
      with `bytes=0--1`. */
  lemma RunFallbackPlan(url: string, dir: string, name: string, n: nat, head: Exchange)
    requires n >= 1
    requires HasAcceptRanges(head).err.None? && !HasAcceptRanges(head).rangeSupported
    ensures var d := NewFileDownloader(url, dir, name, n);
            && RunJobs(d, head) == [FilePart(0, 0, -1, [])]
            && RangeHeader(RunJobs(d, head)[0]) == "bytes=0--1"
  {
    PlanFallback();
    FallbackRangeHeader();
  }

  /** Without range support only an empty payload passes the width check, and
      the size to match is 0: `Run` reports success with an empty file whatever
      the server sends. */
  lemma RunFallbackWritesEmptyFile(url: string, dir: string, name: string, n: nat, head: Exchange, serve: Server)
    requires n >= 1
    requires HasAcceptRanges(head).err.None? && !HasAcceptRanges(head).rangeSupported
    ensures var r := Run(NewFileDownloader(url, dir, name, n), head, serve);
            r.err.None? && r.file == Some([])
  {
    var d := NewFileDownloader(url, dir, name, n);
    RunFallbackPlan(url, dir, name, n, head);
    FallbackFetchLeavesSlotsEmpty(d.doneFilePart, serve);
    var s := FetchedSlots(d, head, serve);
    EmptyTailAddsNothing(s, 0);
    RunIsMerge(d, head, serve);
  }

  /** Without range support a rejected answer is reported as a segment error,
      yet `Run` still merges, writes the empty file and reports success. */
  lemma RunMergesDespiteSegmentError(url: string, dir: string, name: string, n: nat, head: Exchange, serve: Server)
    requires n >= 1
    requires HasAcceptRanges(head).err.None? && !HasAcceptRanges(head).rangeSupported
    requires !Accepts(FilePart(0, 0, -1, []), serve("bytes=0--1"))
    ensures var r := Run(NewFileDownloader(url, dir, name, n), head, serve);
            r.err.None? && r.file == Some([]) && r.partErrors != []
  {
    RunFallbackPlan(url, dir, name, n, head);
    RunFallbackWritesEmptyFile(url, dir, name, n, head, serve);
    var jobs := RunJobs(NewFileDownloader(url, dir, name, n), head);
    assert jobs[0] in jobs;
  }

  /** `goPkgName`: the archive name for a version on a platform. */
  function GoPkgName(version: string, goos: string, goarch: string): (name: string)
    ensures |name| == |version| + |goos| + |goarch| + 11
    ensures name[..2] == "go" && name[2..2 + |version|] == version
    ensures name[2 + |version|] == '.' && name[3 + |version|..3 + |version| + |goos|] == goos
    ensures name[3 + |version| + |goos|] == '-' && name[4 + |version| + |goos|..|name| - 7] == goarch
    ensures name[|name| - 7..] == ".tar.gz"
  {
    "go" + version + "." + goos + "-" + goarch + ".tar.gz"
  }

  /** On one platform, distinct versions get distinct archive names. */
  lemma GoPkgNameInjective(v1: string, v2: string, goos: string, goarch: string)
    requires GoPkgName(v1, goos, goarch) == GoPkgName(v2, goos, goarch)
    ensures v1 == v2
  {
    var name := GoPkgName(v1, goos, goarch);
    assert |v1| == |v2|;
    assert v1 == name[2..2 + |v1|];
  }
}
